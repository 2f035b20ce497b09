/** The socket, driven by an arbitrary schedule of short writes and faults, and
    the three routines that push iovecs and file ranges through it. */
module Senders {
  import opened Flattening
  import opened Buckets

  datatype Failure = Again | Broken(code: int)

  datatype Status = Success | Failed(why: Failure)

  /** What one system call does: move up to n bytes (at least one), or fail
      after moving up to n bytes. */
  datatype Outcome = Moved(n: nat) | Fault(n: nat, why: Failure)

  type Schedule = nat -> Outcome

  /** No call numbered from..to-1 fails. */
  ghost predicate Clean(sched: Schedule, from: nat, to: nat) {
    forall k | from <= k < to :: sched(k).Moved?
  }

  lemma {:induction false} CleanStep(sched: Schedule, from: nat, to: nat)
    requires Clean(sched, from, to) && sched(to).Moved?
    ensures Clean(sched, from, to + 1)
  {}

  /** An iovec is the iov_len bytes found at its iov_base. */
  type Iovec = seq<byte>

  function IovBytes(v: Iovec): seq<byte> {
    v
  }

  function VecBytes(vs: seq<Iovec>): seq<byte> {
    Flatten(IovBytes, vs)
  }

  lemma {:induction false} VecHead(vs: seq<Iovec>)
    requires vs != []
    ensures VecBytes(vs) == vs[0] + VecBytes(vs[1..])
  {}

  /** Dropping everything before position d of v. */
  lemma {:induction false} DropInto(skipped: seq<byte>, v: Iovec, tail: seq<byte>, d: nat)
    requires d <= |v|
    ensures (skipped + (v + tail))[|skipped| + d..] == v[d..] + tail
  {}

  function Min(a: nat, b: nat): (m: nat)
    ensures m <= a && m <= b && (m == a || m == b)
  {
    if a < b then a else b
  }

  function AtLeastOne(n: nat): (m: nat)
    ensures m >= 1 && m >= n
  {
    if n == 0 then 1 else n
  }

  /** The calls numbered from..to-1 all moved bytes, except that a failed status
      is the last call's fault. */
  ghost predicate Outcomes(sched: Schedule, from: nat, to: nat, status: Status) {
    && from <= to
    && (status.Success? ==> Clean(sched, from, to))
    && (status.Failed? ==> from < to && Clean(sched, from, to - 1)
                           && sched(to - 1).Fault? && sched(to - 1).why == status.why)
  }

  lemma {:induction false} CleanThen(sched: Schedule, a: nat, b: nat, c: nat, status: Status)
    requires a <= b && Clean(sched, a, b) && Outcomes(sched, b, c, status)
    ensures Outcomes(sched, a, c, status)
  {}

  /** The outcome of pushing `all`: a prefix of length sent went out; on success
      the prefix is everything and no call failed; on failure the last call, and
      only that one, failed. */
  ghost predicate Pushed(sched: Schedule, from: nat, to: nat, before: seq<byte>, after: seq<byte>,
                         all: seq<byte>, status: Status, sent: nat)
  {
    && sent <= |all|
    && after == before + all[..sent]
    && Outcomes(sched, from, to, status)
    && (status.Success? ==> sent == |all|)
    && (to == from ==> sent == 0)
    && (to == from + 1 && sched(from).Fault? && sched(from).n == 0 ==> sent == 0)
  }

  /** A last call that failed without moving a byte had something left to send. */
  ghost predicate Short(sched: Schedule, to: nat, total: nat, status: Status, sent: nat) {
    status.Failed? && to > 0 && sched(to - 1).n == 0 ==> sent < total
  }

  /** A call that fails without moving a byte. */
  predicate Mute(o: Outcome) {
    o.Fault? && o.n == 0
  }

  /** Every call but a failed one moves a byte, and a failed one leaves some. */
  ghost predicate Brisk(from: nat, to: nat, total: nat, status: Status, sent: int) {
    if status.Success? then to - from <= sent else to - from <= sent + 1 && sent < total
  }

  function Drop(s: seq<byte>, n: int): (r: seq<byte>)
    ensures n <= 0 ==> r == s
    ensures n >= |s| ==> r == []
  {
    if n <= 0 then s else if n <= |s| then s[n..] else []
  }

  /** Cutting n bytes off a three-part message. */
  lemma {:induction false} DropThree(h: seq<byte>, f: seq<byte>, t: seq<byte>, n: nat)
    requires n <= |h + f + t|
    ensures (h + f + t)[n..] == Drop(h, n) + Drop(f, n - |h|) + Drop(t, n - |h| - |f|)
  {}

  /** Moving n bytes from what is left to what is done. */
  lemma {:induction false} Advance(w: seq<byte>, done: seq<byte>, rest: seq<byte>, n: nat)
    requires n <= |rest|
    ensures (done + rest[..n]) + rest[n..] == done + rest
    ensures (w + done) + rest[..n] == w + (done + rest[..n])
    ensures done + rest[..n] == (done + rest)[..|done| + n]
  {
    TakeDrop(rest, n);
    Assoc(done, rest[..n], rest[n..]);
    Assoc(w, done, rest[..n]);
  }

  lemma {:induction false} SubSlices(s: seq<byte>, i: nat, j: nat, k: nat)
    requires i <= j <= k <= |s|
    ensures s[i..k][..j - i] == s[i..j] && s[i..k][j - i..] == s[j..k]
  {}

  lemma {:induction false} Extend(w: seq<byte>, s: seq<byte>, i: nat, j: nat, k: nat)
    requires i <= j <= k <= |s|
    ensures (w + s[i..j]) + s[j..k] == w + s[i..k]
  {
    Slices(s, i, j, k);
    Assoc(w, s[i..j], s[j..k]);
  }

  /** The bytes of vec[i..end]. */
  method Collect(vec: array<Iovec>, i: nat, end: nat) returns (bytes: seq<byte>)
    requires i <= end <= vec.Length
    ensures bytes == VecBytes(vec[i..end])
  {
    bytes := [];
    var k := i;
    while k < end
      invariant i <= k <= end
      invariant bytes == VecBytes(vec[i..k])
    {
      bytes := bytes + vec[k];
      assert vec[i..k + 1] == vec[i..k] + [vec[k]];
      FlattenAppend(IovBytes, vec[i..k], vec[k]);
      k := k + 1;
    }
  }

  class Socket {
    const sched: Schedule
    var step: nat             // system calls made so far
    var wire: seq<byte>       // bytes handed to the network so far

    constructor (sched: Schedule)
      ensures this.sched == sched && step == 0 && wire == []
    {
      this.sched := sched;
      step, wire := 0, [];
    }

    /** apr_socket_sendv over vec[i..nvec]. */
    method Sendv(vec: array<Iovec>, i: nat, nvec: nat) returns (status: Status, n: nat)
      requires i <= nvec <= vec.Length
      requires VecBytes(vec[i..nvec]) != []
      modifies this
      ensures step == old(step) + 1
      ensures n <= |old(VecBytes(vec[i..nvec]))| && wire == old(wire) + old(VecBytes(vec[i..nvec]))[..n]
      ensures sched(old(step)).Moved? ==> status.Success? && n >= 1
      ensures sched(old(step)).Fault? ==> status == Failed(sched(old(step)).why) && n == 0
    {
      var bytes := Collect(vec, i, nvec);
      status, n := Send(bytes);
    }

    /** apr_socket_send. */
    method Send(bytes: seq<byte>) returns (status: Status, n: nat)
      requires bytes != []
      modifies this
      ensures step == old(step) + 1
      ensures n <= |bytes| && wire == old(wire) + bytes[..n]
      ensures sched(old(step)).Moved? ==> status.Success? && n >= 1
      ensures sched(old(step)).Fault? ==> status == Failed(sched(old(step)).why) && n == 0
    {
      match sched(step) {
        case Moved(k) =>
          status, n := Success, Min(AtLeastOne(k), |bytes|);
        case Fault(_, why) =>
          status, n := Failed(why), 0;
      }
      wire := wire + bytes[..n];
      step := step + 1;
    }

    /** apr_socket_sendfile: headers, a file range and trailers in one call,
        which may also fail after sending a part. */
    method Sendfile(headers: array<Iovec>, hs: nat, nh: nat, file: FileRange,
                    trailers: array<Iovec>, ts: nat, nt: nat, ghost all: seq<byte>)
      returns (status: Status, n: nat)
      requires Spells(headers, hs, nh, file, trailers, ts, nt, all) && all != []
      modifies this
      ensures step == old(step) + 1
      ensures n <= |all| && wire == old(wire) + all[..n]
      ensures sched(old(step)).Moved? ==> status.Success? && n >= 1
      ensures sched(old(step)).Fault? ==>
                status == Failed(sched(old(step)).why) && n == Min(sched(old(step)).n, |all|)
    {
      var h := Collect(headers, hs, hs + nh);
      var t := Collect(trailers, ts, ts + nt);
      var bytes := h + file.content[file.offset..file.offset + file.length] + t;
      match sched(step) {
        case Moved(k) =>
          status, n := Success, Min(AtLeastOne(k), |bytes|);
        case Fault(k, why) =>
          status, n := Failed(why), Min(k, |bytes|);
      }
      wire := wire + bytes[..n];
      step := step + 1;
    }

    /** apr_file_seek. */
    method FileSeek() returns (status: Status)
      modifies this`step
      ensures step == old(step) + 1
      ensures status == if sched(old(step)).Moved? then Success else Failed(sched(old(step)).why)
    {
      status := if sched(step).Moved? then Success else Failed(sched(step).why);
      step := step + 1;
    }

    /** apr_file_read of up to want bytes at pos: at least one byte, or an error. */
    method FileRead(content: seq<byte>, pos: nat, want: nat) returns (status: Status, buf: seq<byte>)
      requires 0 < want && pos + want <= |content|
      modifies this`step
      ensures step == old(step) + 1
      ensures sched(old(step)).Moved? ==>
                status.Success? && 1 <= |buf| <= want && buf == content[pos..pos + |buf|]
      ensures sched(old(step)).Fault? ==> status == Failed(sched(old(step)).why)
    {
      match sched(step) {
        case Moved(k) =>
          status, buf := Success, content[pos..pos + Min(AtLeastOne(k), want)];
        case Fault(_, why) =>
          status, buf := Failed(why), [];
      }
      step := step + 1;
    }
  }

  /** vec[i..nvec] after its first n bytes went out: iovecs before i' are done
      and vec[i'] starts at the first unsent byte. */
  method SkipWritten(vec: array<Iovec>, i0: nat, nvec: nat, n: nat) returns (i: nat)
    requires i0 < nvec <= vec.Length
    requires n < |VecBytes(vec[i0..nvec])|
    modifies vec
    ensures i0 <= i < nvec
    ensures VecBytes(vec[i..nvec]) == old(VecBytes(vec[i0..nvec]))[n..]
  {
    i := i0;
    ghost var all, skipped: seq<byte> := VecBytes(vec[i0..nvec]), [];
    var cnt := |vec[i]|;
    while n >= cnt && i + 1 < nvec
      invariant i0 <= i < nvec
      invariant cnt == |skipped| + |vec[i]| && |skipped| <= n
      invariant skipped + VecBytes(vec[i..nvec]) == all
    {
      ghost var v, tail := vec[i], VecBytes(vec[i + 1..nvec]);
      VecTail(vec, i, nvec);
      Assoc(skipped, v, tail);
      skipped := skipped + v;
      i := i + 1;
      cnt := cnt + |vec[i]|;
    }
    ghost var v, rest := vec[i], vec[i + 1..nvec];
    VecTail(vec, i, nvec);
    assert rest == [] ==> VecBytes(rest) == [];
    // iov_base moves by iov_len - (cnt - n) and iov_len becomes cnt - n
    vec[i] := vec[i][|vec[i]| - (cnt - n)..];
    DropInto(skipped, v, VecBytes(rest), n - |skipped|);
    assert vec[i + 1..nvec] == rest;
    VecTail(vec, i, nvec);
  }

  lemma {:induction false} VecTail(vec: array<Iovec>, i: nat, n: nat)
    requires i < n <= vec.Length
    ensures VecBytes(vec[i..n]) == vec[i] + VecBytes(vec[i + 1..n])
  {
    VecHead(vec[i..n]);
    assert vec[i..n][1..] == vec[i + 1..n];
  }

  /** writev_it_all: send vec[..nvec], adjusting the iovecs after short writes. */
  method WritevItAll(s: Socket, vec: array<Iovec>, nvec: nat, len: nat)
    returns (status: Status, nbytes: nat)
    requires nvec <= vec.Length && len == |VecBytes(vec[..nvec])|
    modifies s, vec
    ensures Pushed(s.sched, old(s.step), s.step, old(s.wire), s.wire,
                   old(VecBytes(vec[..nvec])), status, nbytes)
    ensures Short(s.sched, s.step, len, status, nbytes)
    ensures Brisk(old(s.step), s.step, len, status, nbytes)
  {
    var i, written := 0, 0;
    nbytes := 0;
    ghost var all := VecBytes(vec[..nvec]);
    assert vec[0..nvec] == vec[..nvec];
    while written != len
      invariant 0 <= i <= nvec
      invariant written == nbytes <= len
      invariant old(s.step) <= s.step <= old(s.step) + written && (s.step == old(s.step) ==> written == 0)
      invariant s.wire == old(s.wire) + all[..written]
      invariant written < len ==> VecBytes(vec[i..nvec]) == all[written..]
      invariant Clean(s.sched, old(s.step), s.step)
      decreases len - written
    {
      var n;
      status, n := s.Sendv(vec, i, nvec);
      nbytes := nbytes + n;
      written := written + n;
      if !status.Success? {
        return;
      }
      if written < len {
        assert i < nvec;
        i := SkipWritten(vec, i, nvec, n);
      }
    }
    status := Success;
  }

  /** Drop the first t bytes of vec[p..p + num], as the header and trailer loops
      of sendfile_it_all do; what exceeds the iovecs is handed back. */
  method SkipFront(vec: array<Iovec>, p0: nat, num0: nat, t0: nat)
    returns (p: nat, num: nat, t: nat)
    requires p0 + num0 <= vec.Length
    modifies vec
    ensures p + num == p0 + num0
    ensures
      var all := old(VecBytes(vec[p0..p0 + num0]));
      if t0 <= |all| then t == 0 && VecBytes(vec[p..p + num]) == all[t0..]
      else t == t0 - |all| && VecBytes(vec[p..p + num]) == []
  {
    p, num, t := p0, num0, t0;
    ghost var all, skipped: seq<byte> := VecBytes(vec[p0..p0 + num0]), [];
    while t > 0 && num > 0
      invariant p + num == p0 + num0
      invariant t + |skipped| == t0
      invariant skipped + VecBytes(vec[p..p + num]) == all
      decreases num, t
    {
      ghost var v, rest := vec[p], vec[p + 1..p + num];
      VecTail(vec, p, p + num);
      if t >= |vec[p]| {
        Assoc(skipped, v, VecBytes(rest));
        skipped := skipped + v;
        t := t - |vec[p]|;
        num := num - 1;
        p := p + 1;
      } else {
        vec[p] := vec[p][t..];
        assert vec[p + 1..p + num] == rest;
        VecTail(vec, p, p + num);
        CutInto(skipped, v, VecBytes(rest), t);
        skipped := skipped + v[..t];
        t := 0;
      }
    }
    assert num == 0 ==> VecBytes(vec[p..p + num]) == [];
  }

  lemma {:induction false} CutInto(skipped: seq<byte>, v: Iovec, tail: seq<byte>, t: nat)
    requires t <= |v|
    ensures (skipped + v[..t]) + (v[t..] + tail) == skipped + (v + tail)
  {}

  /** sendfile_it_all: headers, file range and trailers through sendfile(). */
  method SendfileItAll(s: Socket, headers: array<Iovec>, numHeaders: nat, file: FileRange,
                       trailers: array<Iovec>, numTrailers: nat, totalBytes: nat)
    returns (status: Status, bytesSent: nat)
    requires headers != trailers
    requires numHeaders <= headers.Length && numTrailers <= trailers.Length
    requires totalBytes ==
             |VecBytes(headers[..numHeaders]) + FileBytes(file) + VecBytes(trailers[..numTrailers])|
    requires totalBytes > 0
    modifies s, headers, trailers
    ensures Pushed(s.sched, old(s.step), s.step, old(s.wire), s.wire,
                   old(VecBytes(headers[..numHeaders]) + FileBytes(file) + VecBytes(trailers[..numTrailers])),
                   status, bytesSent)
    ensures Short(s.sched, s.step, totalBytes, status, bytesSent)
    ensures s.step > old(s.step) && (Mute(s.sched(old(s.step))) || bytesSent > 0)
  {
    ghost var all := VecBytes(headers[..numHeaders]) + FileBytes(file) + VecBytes(trailers[..numTrailers]);
    var hs: nat, nh: nat, ts: nat, nt: nat := 0, numHeaders, 0, numTrailers;
    var body, total := file, totalBytes;
    bytesSent := 0;
    assert headers[..numHeaders] == headers[0..0 + numHeaders];
    assert trailers[..numTrailers] == trailers[0..0 + numTrailers];
    ghost var done: seq<byte>, rest := [], all;
    while true
      invariant Spells(headers, hs, nh, body, trailers, ts, nt, rest)
      invariant total == |rest| > 0 && bytesSent == |done| && done + rest == all
      invariant s.wire == old(s.wire) + done
      invariant old(s.step) <= s.step && (s.step == old(s.step) <==> bytesSent == 0)
      invariant Clean(s.sched, old(s.step), s.step)
      decreases total
    {
      var tmplen;
      status, tmplen := s.Sendfile(headers, hs, nh, body, trailers, ts, nt, rest);
      Advance(old(s.wire), done, rest, tmplen);
      bytesSent := bytesSent + tmplen;
      total := total - tmplen;
      done := done + rest[..tmplen];
      if status.Success? { CleanStep(s.sched, old(s.step), s.step - 1); }
      if total == 0 || !status.Success? {
        return;
      }
      hs, nh, body, ts, nt := SkipSent(headers, hs, nh, body, trailers, ts, nt, tmplen, rest);
      rest := rest[tmplen..];
    }
  }

  /** What is left of headers, file and trailers spells rest. */
  ghost predicate Spells(headers: array<Iovec>, hs: nat, nh: nat, file: FileRange,
                         trailers: array<Iovec>, ts: nat, nt: nat, rest: seq<byte>)
    reads headers, trailers
  {
    && hs + nh <= headers.Length && ts + nt <= trailers.Length
    && rest == VecBytes(headers[hs..hs + nh]) + FileBytes(file) + VecBytes(trailers[ts..ts + nt])
  }

  lemma {:induction false} DropFile(file: FileRange, k: nat)
    requires k <= file.length
    ensures FileBytes(FileRange(file.content, file.offset + k, file.length - k)) == FileBytes(file)[k..]
    ensures |FileBytes(file)| == file.length
  {}

  /** The adjustment after a partial sendfile: skip what was written of the
      headers, then of the file, then of the trailers. */
  method SkipSent(headers: array<Iovec>, hs0: nat, nh0: nat, body0: FileRange,
                  trailers: array<Iovec>, ts0: nat, nt0: nat, sent: nat, ghost rest: seq<byte>)
    returns (hs: nat, nh: nat, body: FileRange, ts: nat, nt: nat)
    requires headers != trailers
    requires Spells(headers, hs0, nh0, body0, trailers, ts0, nt0, rest) && sent <= |rest|
    modifies headers, trailers
    ensures Spells(headers, hs, nh, body, trailers, ts, nt, rest[sent..])
  {
    ghost var h, t := VecBytes(headers[hs0..hs0 + nh0]), VecBytes(trailers[ts0..ts0 + nt0]);
    DropThree(h, FileBytes(body0), t, sent);
    body, ts, nt := body0, ts0, nt0;
    var tmplen;
    hs, nh, tmplen := SkipFront(headers, hs0, nh0, sent);
    assert trailers[ts0..ts0 + nt0] == old(trailers[ts0..ts0 + nt0]);
    assert VecBytes(headers[hs..hs + nh]) == Drop(h, sent);
    if tmplen <= body.length {
      DropFile(body, tmplen);
      body := FileRange(body.content, body.offset + tmplen, body.length - tmplen);
      return;
    }
    tmplen := tmplen - body.length;
    body := FileRange(body.content, 0, 0);
    label L:
    ts, nt, tmplen := SkipFront(trailers, ts, nt, tmplen);
    assert headers[hs..hs + nh] == old@L(headers[hs..hs + nh]);
  }

  /** emulate_sendfile: the same through writev, read and write. */
  method EmulateSendfile(s: Socket, headers: array<Iovec>, numHeaders: nat, file: FileRange,
                         trailers: array<Iovec>, numTrailers: nat)
    returns (status: Status, nbytes: nat)
    requires headers != trailers
    requires numHeaders <= headers.Length && numTrailers <= trailers.Length
    modifies s, headers, trailers
    ensures Pushed(s.sched, old(s.step), s.step, old(s.wire), s.wire,
                   old(VecBytes(headers[..numHeaders]) + FileBytes(file) + VecBytes(trailers[..numTrailers])),
                   status, nbytes)
    ensures file.length > 0 ==>
      Short(s.sched, s.step,
        old(|VecBytes(headers[..numHeaders])| + file.length + |VecBytes(trailers[..numTrailers])|), status, nbytes)
  {
    ghost var h, f, t := VecBytes(headers[..numHeaders]), FileBytes(file), VecBytes(trailers[..numTrailers]);
    ghost var step0, wire0 := s.step, s.wire;
    nbytes := 0;
    status := Success;
    if numHeaders > 0 {
      var sendlen := TotalLength(headers, numHeaders);
      var sent;
      status, sent := WritevItAll(s, headers, numHeaders, sendlen);
      nbytes := nbytes + sent;
    }
    assert Pushed(s.sched, step0, s.step, wire0, s.wire, h, status, nbytes);
    if status.Success? {
      ghost var step1, wire1 := s.step, s.wire;
      var sent;
      status, sent := StreamFile(s, file);
      nbytes := nbytes + sent;
      PushedThen(s.sched, step0, step1, s.step, wire0, wire1, s.wire, h, f, status, sent);
    } else {
      PushedShort(s.sched, step0, s.step, wire0, s.wire, h, f, status, nbytes);
    }
    assert Pushed(s.sched, step0, s.step, wire0, s.wire, h + f, status, nbytes);
    if status.Success? && numTrailers > 0 {
      ghost var step2, wire2 := s.step, s.wire;
      var sendlen := TotalLength(trailers, numTrailers);
      var sent;
      status, sent := WritevItAll(s, trailers, numTrailers, sendlen);
      nbytes := nbytes + sent;
      PushedThen(s.sched, step0, step2, s.step, wire0, wire2, s.wire, h + f, t, status, sent);
    } else if status.Failed? {
      PushedShort(s.sched, step0, s.step, wire0, s.wire, h + f, t, status, nbytes);
    } else {
      assert trailers[..numTrailers] == [] && h + f + t == h + f;
    }
  }

  /** Two pushes in a row, the first complete, are a push of the concatenation. */
  lemma {:induction false} PushedThen(sched: Schedule, a: nat, b: nat, c: nat, w0: seq<byte>, w1: seq<byte>,
                                      w2: seq<byte>, x: seq<byte>, y: seq<byte>, status: Status, n: nat)
    requires Pushed(sched, a, b, w0, w1, x, Success, |x|)
    requires Pushed(sched, b, c, w1, w2, y, status, n)
    ensures Pushed(sched, a, c, w0, w2, x + y, status, |x| + n)
  {
    assert (x + y)[..|x| + n] == x[..|x|] + y[..n];
  }

  /** A push of x that failed is a failed push of x + y. */
  lemma {:induction false} PushedShort(sched: Schedule, a: nat, b: nat, w0: seq<byte>, w1: seq<byte>,
                    x: seq<byte>, y: seq<byte>, status: Status, n: nat)
    requires status.Failed? && Pushed(sched, a, b, w0, w1, x, status, n)
    ensures Pushed(sched, a, b, w0, w1, x + y, status, n)
  {
    assert (x + y)[..n] == x[..n];
  }

  /** The file has been sent up to pos. */
  ghost predicate Streamed(sched: Schedule, step0: nat, step: nat, wire0: seq<byte>, wire: seq<byte>,
                           file: FileRange, pos: nat) {
    && file.offset <= pos <= file.offset + file.length
    && wire == wire0 + file.content[file.offset..pos]
    && step0 < step && Clean(sched, step0, step)
  }

  lemma {:induction false} StreamStarts(sched: Schedule, step: nat, wire: seq<byte>, file: FileRange)
    requires sched(step).Moved?
    ensures Streamed(sched, step, step + 1, wire, wire, file, file.offset)
  {
    assert file.content[file.offset..file.offset] == [];
  }

  lemma {:induction false} StreamMore(sched: Schedule, step0: nat, step: nat, step': nat, wire0: seq<byte>,
                                      wire: seq<byte>,
                                      wire': seq<byte>, file: FileRange, pos: nat, sent: nat, status: Status)
    requires Streamed(sched, step0, step, wire0, wire, file, pos) && pos + sent <= file.offset + file.length
    requires wire' == wire + file.content[pos..pos + sent] && step < step' && Outcomes(sched, step, step', status)
    ensures wire' == wire0 + file.content[file.offset..pos + sent] && Outcomes(sched, step0, step', status)
    ensures status.Success? ==> Streamed(sched, step0, step', wire0, wire', file, pos + sent)
  {
    CleanThen(sched, step0, step, step', status);
    Extend(wire0, file.content, file.offset, pos, pos + sent);
  }

  lemma {:induction false} StreamPart(file: FileRange, pos: nat)
    requires file.offset <= pos <= file.offset + file.length
    ensures FileBytes(file)[..pos - file.offset] == file.content[file.offset..pos] && |FileBytes(file)| == file.length
  {
    SubSlices(file.content, file.offset, pos, file.offset + file.length);
  }

  /** The file part of emulate_sendfile: seek, then read and send by buffers. */
  method StreamFile(s: Socket, file: FileRange) returns (status: Status, nbytes: nat)
    modifies s
    ensures Pushed(s.sched, old(s.step), s.step, old(s.wire), s.wire, FileBytes(file), status, nbytes)
    ensures file.length > 0 ==> Short(s.sched, s.step, file.length, status, nbytes)
  {
    ghost var sched, step0, wire0 := s.sched, s.step, s.wire;
    nbytes := 0;
    status := s.FileSeek();
    StreamPart(file, file.offset);
    if status.Failed? {
      return;
    }
    StreamStarts(sched, step0, wire0, file);
    var togo: nat, pos: nat := file.length, file.offset;
    while togo > 0
      invariant pos + togo == file.offset + file.length && nbytes == pos - file.offset && status.Success?
      invariant Streamed(sched, step0, s.step, wire0, s.wire, file, pos)
    {
      ghost var step, wire := s.step, s.wire;
      var sent;
      status, sent := SendChunk(s, file.content, pos, togo);
      StreamMore(sched, step0, step, s.step, wire0, wire, s.wire, file, pos, sent, status);
      nbytes := nbytes + sent;
      if status.Failed? {
        StreamPart(file, pos + sent);
        return;
      }
      togo := togo - sent;
      pos := pos + sent;
    }
    StreamPart(file, pos);
  }

  /** One round of emulate_sendfile: read a buffer of up to 8192 bytes, send it. */
  method SendChunk(s: Socket, content: seq<byte>, pos: nat, togo: nat) returns (status: Status, sent: nat)
    requires 0 < togo && pos + togo <= |content|
    modifies s
    ensures Outcomes(s.sched, old(s.step), s.step, status) && s.step > old(s.step)
    ensures sent <= togo && s.wire == old(s.wire) + content[pos..pos + sent]
    ensures if status.Success? then sent > 0 else Short(s.sched, s.step, togo, status, sent)
  {
    var buf;
    status, buf := s.FileRead(content, pos, Min(togo, 8192));
    sent := 0;
    if status.Failed? {
      assert content[pos..pos] == [];
      return;
    }
    status, sent := SendBuffer(s, buf);
    SubSlices(content, pos, pos + sent, pos + |buf|);
  }

  /** The inner loop of emulate_sendfile: send one buffer. */
  method SendBuffer(s: Socket, buf: seq<byte>) returns (status: Status, sent: nat)
    requires buf != []
    modifies s
    ensures Outcomes(s.sched, old(s.step), s.step, status)
    ensures sent <= |buf| && s.wire == old(s.wire) + buf[..sent]
    ensures s.step > old(s.step) && (sent == |buf| <==> status.Success?)
  {
    var sendlen: nat, o: nat := |buf|, 0;
    sent := 0;
    ghost var done: seq<byte> := [];
    status := Success;
    assert buf[0..] == buf;
    while status.Success? && sendlen > 0
      invariant o + sendlen == |buf| && sent == o == |done| && done + buf[o..] == buf
      invariant s.wire == old(s.wire) + done && (status.Failed? ==> sendlen > 0)
      invariant old(s.step) <= s.step && (s.step == old(s.step) ==> status.Success? && sent == 0)
      invariant Outcomes(s.sched, old(s.step), s.step, status)
      decreases sendlen, status.Success?
    {
      var n;
      status, n := s.Send(buf[o..]);
      Advance(old(s.wire), done, buf[o..], n);
      done := done + buf[o..][..n];
      sent := sent + n;
      if status.Success? {
        assert buf[o..][n..] == buf[o + n..];
        sendlen := sendlen - n;
        o := o + n;
      }
    }
    assert buf[..sent] == done;
  }

  method TotalLength(vec: array<Iovec>, n: nat) returns (len: nat)
    requires n <= vec.Length
    ensures len == |VecBytes(vec[..n])|
  {
    len := 0;
    var i := 0;
    while i < n
      invariant 0 <= i <= n
      invariant len == |VecBytes(vec[..i])|
    {
      len := len + |vec[i]|;
      assert vec[..i + 1] == vec[..i] + [vec[i]];
      FlattenAppend(IovBytes, vec[..i], vec[i]);
      i := i + 1;
    }
  }
}
