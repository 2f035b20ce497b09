/** ap_content_length_filter: it counts exactly what it forwards, and a length it
    announces is that of the whole response. */
module ContentLength {
  import opened Flattening
  import opened Basics
  import opened Buckets

  /** What the next filter answers: success, or a failure (also when the
      connection turned out to be aborted). */
  type Downstream = nat -> bool

  /** An end-of-stream bucket is the last one. */
  predicate EosLast(bs: seq<Bucket>) {
    forall i | 0 <= i < |bs| - 1 :: !bs[i].Eos?
  }

  predicate EndsInEos(bs: seq<Bucket>) {
    bs != [] && bs[|bs| - 1].Eos?
  }

  /** A brigade sent early ends in a flush, and the end of the stream is not in it. */
  predicate Early(bs: seq<Bucket>) {
    bs != [] && bs[|bs| - 1].Flush? && Eos !in bs
  }

  predicate NoPipes(bs: seq<Bucket>) {
    forall i | 0 <= i < |bs| :: !bs[i].Pipe?
  }

  /** Some early brigades were passed on, and front comes next; without pipes nothing
      was, and front and rest are b0. */
  ghost predicate Handing(b0: seq<Bucket>, before: seq<seq<Bucket>>, passed: seq<seq<Bucket>>, front: seq<Bucket>,
                          rest: seq<Bucket>)
  {
    && before <= passed && (forall k | |before| <= k < |passed| :: Early(passed[k])) && Eos !in front
    && (NoPipes(b0) ==> front + rest == b0 && passed == before)
  }

  lemma {:induction false} HandOne(b0: seq<Bucket>, before: seq<seq<Bucket>>, passed: seq<seq<Bucket>>,
                                   front: seq<Bucket>, rest: seq<Bucket>)
    requires Handing(b0, before, passed, front, rest) && rest != [] && rest[0] != Eos
    ensures Handing(b0, before, passed, front + [rest[0]], rest[1..])
  {}

  /** At a pipe: a piece of it, or what comes before it. */
  lemma {:induction false} HandPipe(b0: seq<Bucket>, before: seq<seq<Bucket>>, passed: seq<seq<Bucket>>,
                                    front: seq<Bucket>, rest: seq<Bucket>, x: Bucket, rest': seq<Bucket>)
    requires Handing(b0, before, passed, front, rest) && rest != [] && rest[0].Pipe? && x != Eos
    ensures Handing(b0, before, passed, front + [x], rest')
    ensures Handing(b0, before, passed + [front + [Flush]], [], rest')
  {
    assert (front + rest)[|front|].Pipe?;
    assert !NoPipes(b0);
  }

  /** What a call passes on: early brigades, and last one that ends as b0 does, unless
      an early one was refused. Without pipes it is b0, as it came. */
  ghost predicate HandedOn(b0: seq<Bucket>, before: seq<seq<Bucket>>, passed: seq<seq<Bucket>>, complete: bool) {
    && before <= passed && |before| < |passed|
    && (forall k | |before| <= k < |passed| - 1 :: Early(passed[k]))
    && (if complete then EosLast(passed[|passed| - 1]) && EndsInEos(passed[|passed| - 1]) == EndsInEos(b0)
        else Early(passed[|passed| - 1]))
    && (NoPipes(b0) ==> passed == before + [b0])
  }

  lemma {:induction false} HandLast(b0: seq<Bucket>, before: seq<seq<Bucket>>, passed: seq<seq<Bucket>>,
                                    front: seq<Bucket>, rest: seq<Bucket>)
    requires Handing(b0, before, passed, front, rest) && rest == if EndsInEos(b0) then [Eos] else []
    ensures HandedOn(b0, before, passed + [front + rest], true)
  {
    assert rest == [] ==> front + rest == front;
  }

  lemma {:induction false} HandFailed(b0: seq<Bucket>, before: seq<seq<Bucket>>, passed: seq<seq<Bucket>>,
                                      front: seq<Bucket>, rest: seq<Bucket>)
    requires Handing(b0, before, passed, front, rest) && |before| < |passed|
    ensures HandedOn(b0, before, passed, false)
  {}

  /** What was passed on of a response after some of its brigades: the end of the
      stream is nowhere but at the very end, and there if nothing was refused. */
  ghost predicate Responded(brigades: seq<seq<Bucket>>, i: nat, passed: seq<seq<Bucket>>, smooth: bool)
    requires i <= |brigades|
  {
    && (forall k | 0 <= k < |passed| && (k < |passed| - 1 || i < |brigades|) :: Eos !in passed[k])
    && (smooth && 0 < i && EndsInEos(brigades[i - 1]) ==> passed != [] && EndsInEos(passed[|passed| - 1]))
    && ((forall j | 0 <= j < |brigades| :: NoPipes(brigades[j])) ==> passed == brigades[..i])
  }

  lemma {:induction false} RespondedMore(brigades: seq<seq<Bucket>>, i: nat, before: seq<seq<Bucket>>,
                                         passed: seq<seq<Bucket>>, smooth0: bool, smooth: bool, complete: bool)
    requires i < |brigades| && (i < |brigades| - 1 ==> !EndsInEos(brigades[i]))
    requires Responded(brigades, i, before, smooth0) && HandedOn(brigades[i], before, passed, complete)
    requires smooth ==> complete
    ensures Responded(brigades, i + 1, passed, smooth)
  {
    forall k | 0 <= k < |passed| && (k < |passed| - 1 || i + 1 < |brigades|) ensures Eos !in passed[k] {
      if k < |before| {
        assert passed[k] == before[k];
      }
    }
    assert brigades[..i + 1] == brigades[..i] + [brigades[i]];
  }

  /** Reading the first bucket, which is not EOS, leaves the end as it is. */
  lemma {:induction false} EndKept(r: seq<Bucket>, rest: seq<Bucket>)
    requires rest != [] && EosLast(rest) && !rest[0].Eos? && 1 <= |r| <= 2
    requires !r[0].Eos? && !r[|r| - 1].Eos?
    ensures
      var left := (r + rest[1..])[1..];
      EosLast(left) && EndsInEos(left) == EndsInEos(rest)
  {
    assert (r + rest[1..])[1..] == r[1..] + rest[1..];
  }

  /** Whether each piece of a bucket is there when it is asked for without
      waiting: a pipe's batches and its end, any other bucket as a whole. */
  function Pieces(b: Bucket): seq<bool> {
    if b.Pipe? then PipePieces(b.chunks, b.eofReady) else [true]
  }

  function PipePieces(chunks: seq<PipeChunk>, eofReady: bool): seq<bool> {
    if chunks == [] then [eofReady] else [chunks[0].ready] + PipePieces(chunks[1..], eofReady)
  }

  function AllPieces(bs: seq<Bucket>): seq<bool> {
    Flatten(Pieces, bs)
  }

  /** Only the very first piece may have to be waited for. */
  predicate Prompt(bs: seq<Bucket>) {
    forall i | 1 <= i < |AllPieces(bs)| :: AllPieces(bs)[i]
  }

  /** The counting loop has taken k of the pieces ps, and stalled so often. */
  ghost predicate InStep(ps: seq<bool>, k: nat, front: seq<Bucket>, rest: seq<Bucket>, eblock: ReadType, stalls: nat) {
    && k <= |ps| && AllPieces(rest) == ps[k..]
    && (stalls == 0 ==>
          (front == [] <==> k == 0) && (forall i | 1 <= i < k :: ps[i]) && (eblock.Blocking? ==> k == 0))
    && (stalls > 0 ==> exists i | 1 <= i < |ps| :: !ps[i])
  }

  /** Taking the first piece of rest, which is there or was waited for. */
  ghost predicate TakesPiece(rest: seq<Bucket>, eblock: ReadType, rest': seq<Bucket>) {
    && AllPieces(rest) != [] && AllPieces(rest)[1..] == AllPieces(rest')
    && (AllPieces(rest)[0] || eblock.Blocking?)
  }

  lemma {:induction false} TakePipe(rest: seq<Bucket>, eblock: ReadType)
    requires rest != [] && rest[0].Pipe? && ReadBucket(rest[0], eblock).Some?
    ensures TakesPiece(rest, eblock, (ReadBucket(rest[0], eblock).value + rest[1..])[1..])
  {
    var r, more := ReadBucket(rest[0], eblock).value, rest[1..];
    if rest[0].chunks == [] {
      assert (r + more)[1..] == more;
    } else {
      assert (r + more)[1..] == [r[1]] + more;
      assert ([r[1]] + more)[1..] == more;
      Assoc([rest[0].chunks[0].ready], Pieces(r[1]), AllPieces(more));
    }
  }

  lemma {:induction false} TakeOther(rest: seq<Bucket>, eblock: ReadType)
    requires rest != [] && !rest[0].Pipe?
    ensures TakesPiece(rest, eblock, rest[1..])
  {}

  lemma {:induction false} WaitsAt(rest: seq<Bucket>)
    requires rest != [] && rest[0].Pipe? && !Ready(rest[0])
    ensures AllPieces(rest) != [] && !AllPieces(rest)[0]
  {}

  lemma {:induction false} StepTaken(ps: seq<bool>, k: nat, front: seq<Bucket>, rest: seq<Bucket>, eblock: ReadType,
                                     stalls: nat, b: Bucket, rest': seq<Bucket>)
    requires InStep(ps, k, front, rest, eblock, stalls) && TakesPiece(rest, eblock, rest')
    ensures InStep(ps, k + 1, front + [b], rest', Nonblocking, stalls)
  {
    assert ps[k..][1..] == ps[k + 1..] && ps[k..][0] == ps[k];
  }

  lemma {:induction false} StepStalled(ps: seq<bool>, k: nat, front: seq<Bucket>, rest: seq<Bucket>, stalls: nat)
    requires InStep(ps, k, front, rest, Nonblocking, stalls) && AllPieces(rest) != [] && !AllPieces(rest)[0]
    ensures InStep(ps, k, [], rest, Blocking, stalls + if front != [] then 1 else 0)
  {
    assert ps[k..][0] == ps[k];
  }

  lemma {:induction false} StepsEnd(b0: seq<Bucket>, k: nat, front: seq<Bucket>, rest: seq<Bucket>, eblock: ReadType,
                                    stalls: nat)
    requires InStep(AllPieces(b0), k, front, rest, eblock, stalls)
    requires stalls > 0 || rest == [] || rest == [Eos]
    ensures stalls == 0 <==> Prompt(b0)
  {
    var ps := AllPieces(b0);
    if stalls == 0 {
      FlattenOne(Pieces, Eos);
      assert rest == [Eos] ==> ps[k..] == [true] && |ps| == k + 1 && ps[k..][0] == ps[k];
    }
  }

  /** Reading a piece of the pipe in front, which is then the head of left. */
  lemma {:induction false} PipeRead(b0: seq<Bucket>, before: seq<seq<Bucket>>, passed: seq<seq<Bucket>>,
                                    ps: seq<bool>, k: nat, front: seq<Bucket>, rest: seq<Bucket>, eblock: ReadType,
                                    stalls: nat, left: seq<Bucket>)
    requires rest != [] && rest[0].Pipe? && EosLast(rest) && ReadBucket(rest[0], eblock).Some?
    requires left == ReadBucket(rest[0], eblock).value + rest[1..]
    requires InStep(ps, k, front, rest, eblock, stalls) && Handing(b0, before, passed, front, rest)
    ensures left != [] && Content(left) == Content(rest) && Work(left) <= Work(rest)
    ensures EosLast(left[1..]) && EndsInEos(left[1..]) == EndsInEos(rest)
    ensures InStep(ps, k + 1, front + [left[0]], left[1..], Nonblocking, stalls)
    ensures Handing(b0, before, passed, front + [left[0]], left[1..])
  {
    var r := ReadBucket(rest[0], eblock).value;
    ReadKeepsContent(rest[0], eblock);
    ReadInPlace(rest, eblock);
    EndKept(r, rest);
    TakePipe(rest, eblock);
    StepTaken(ps, k, front, rest, eblock, stalls, left[0], left[1..]);
    HandPipe(b0, before, passed, front, rest, left[0], left[1..]);
  }

  /** The brigades numbered from..to were taken. */
  predicate Took(next: Downstream, from: nat, to: nat) {
    forall k | from <= k < to :: next(k)
  }

  lemma {:induction false} TookMore(next: Downstream, from: nat, mid: nat, to: nat)
    requires from <= mid <= to
    ensures Took(next, from, to) <==> Took(next, from, mid) && Took(next, mid, to)
  {}

  class Filter {
    const next: Downstream
    const headerOnly: bool
    var passes: nat                     // brigades handed to the next filter
    var bytesSent: nat                  // r->bytes_sent
    var dataSent: bool                  // ctx->data_sent
    var contentLength: Option<nat>      // the Content-Length response header
    var passed: seq<seq<Bucket>>        // the brigades themselves
    var forwarded: seq<byte>            // and their bytes

    constructor (next: Downstream, headerOnly: bool, preset: Option<nat>)
      ensures this.next == next && this.headerOnly == headerOnly && contentLength == preset
      ensures passes == 0 && bytesSent == 0 && !dataSent && forwarded == [] && passed == []
    {
      this.next, this.headerOnly, contentLength := next, headerOnly, preset;
      passes, bytesSent, dataSent, forwarded, passed := 0, 0, false, [], [];
    }

    /** The next filter took every brigade so far. */
    ghost predicate Smooth()
      reads this
    {
      Took(next, 0, passes)
    }

    /** Counting is exact; data_sent is set with the first brigade that is taken. */
    ghost predicate Valid()
      reads this
    {
      bytesSent == |forwarded| && (Smooth() && !dataSent ==> forwarded == []) && |passed| == passes
    }

    method Pass(b: seq<Bucket>) returns (ok: bool)
      modifies this`passes, this`forwarded, this`passed
      ensures ok == next(old(passes)) && passes == old(passes) + 1
      ensures forwarded == old(forwarded) + Content(b) && passed == old(passed) + [b]
    {
      ok := next(passes);
      passes := passes + 1;
      forwarded, passed := forwarded + Content(b), passed + [b];
    }

    /** Between two steps of the counting loop: front is counted, rest is not, and
        nothing of `all` is missing. */
    ghost predicate Counting(front: seq<Bucket>, rest: seq<Bucket>, all: seq<byte>)
      reads this
    {
      && bytesSent == |forwarded| + |Content(front)|
      && forwarded + (Content(front) + Content(rest)) == all
    }

    /** Count the bucket at the head of rest. */
    method CountOne(front0: seq<Bucket>, rest0: seq<Bucket>, ghost all: seq<byte>)
      returns (front: seq<Bucket>, rest: seq<Bucket>)
      requires rest0 != [] && Counting(front0, rest0, all)
      modifies this`bytesSent
      ensures Counting(front, rest, all)
      ensures front == front0 + [rest0[0]] && rest == rest0[1..] && Work(rest) < Work(rest0)
    {
      MoveOne(front0, rest0);
      bytesSent := bytesSent + |Data(rest0[0])|;
      front, rest := front0 + [rest0[0]], rest0[1..];
    }

    /** At a pipe with nothing to read yet: send all that comes before it. */
    method SendBefore(front: seq<Bucket>, ghost rest: seq<Bucket>, ghost all: seq<byte>) returns (ok: bool)
      requires Counting(front, rest, all)
      modifies this`dataSent, this`passes, this`forwarded, this`passed
      ensures ok == next(old(passes)) && passes == old(passes) + 1
      ensures bytesSent == |forwarded| && dataSent == (old(dataSent) || ok)
      ensures forwarded == old(forwarded) + Content(front) && Counting([], rest, all)
      ensures passed == old(passed) + [front + [Flush]]
    {
      FlattenAppend(Data, front, Flush);
      assert Content(front) + [] == Content(front);
      Assoc(forwarded, Content(front), Content(rest));
      ok := Pass(front + [Flush]);
      assert [] + Content(rest) == Content(rest);
      if ok {
        dataSent := true;
      }
    }

    /** One iteration of the counting loop at a pipe: count what can be read, or
        send what comes before it and block next time. */
    method StepPipe(front0: seq<Bucket>, rest0: seq<Bucket>, eblock0: ReadType, ghost all: seq<byte>,
                    ghost ps: seq<bool>, ghost k0: nat, ghost stalls0: nat, ghost b0: seq<Bucket>,
                    ghost before: seq<seq<Bucket>>)
      returns (ok: bool, front: seq<Bucket>, rest: seq<Bucket>, eblock: ReadType, ghost k: nat, ghost stalls: nat)
      requires rest0 != [] && rest0[0].Pipe? && EosLast(rest0) && Counting(front0, rest0, all)
      requires InStep(ps, k0, front0, rest0, eblock0, stalls0) && Handing(b0, before, passed, front0, rest0)
      modifies this`bytesSent, this`dataSent, this`passes, this`forwarded, this`passed
      ensures Counting(front, rest, all) && InStep(ps, k, front, rest, eblock, stalls)
      ensures EosLast(rest) && EndsInEos(rest) == EndsInEos(rest0)
      ensures if stalls == stalls0
              then ok && passes == old(passes) && dataSent == old(dataSent) && forwarded == old(forwarded)
                   && passed == old(passed)
              else stalls == stalls0 + 1 && passes == old(passes) + 1 && ok == Took(next, old(passes), passes)
                   && dataSent == (old(dataSent) || ok) && forwarded == old(forwarded) + Content(front0) && front == []
                   && |passed| == |old(passed)| + 1
      ensures Handing(b0, before, passed, front, rest)
      ensures if eblock.Nonblocking? then Work(rest) < Work(rest0) else rest == rest0 && eblock0.Nonblocking?
    {
      ok, front, rest, eblock, k, stalls := true, front0, rest0, eblock0, k0, stalls0;
      var r := ReadBucket(rest[0], eblock);
      if r.Some? {
        var left := r.value + rest[1..];
        PipeRead(b0, before, passed, ps, k, front, rest, eblock, stalls, left);
        k := k + 1;
        eblock := Nonblocking;
        front, rest := CountOne(front, left, all);
      } else {
        WaitsAt(rest);
        StepStalled(ps, k, front, rest, stalls);
        eblock := Blocking;
        if front != [] {
          HandPipe(b0, before, passed, front, rest, Flush, rest);
          ok := SendBefore(front, rest, all);
          front, stalls := [], stalls + 1;
        }
      }
    }

    /** The counting loop. It ends at EOS or with the brigade, unless the next
        filter refuses what had to be sent early, `stalls` times in all. */
    method CountAll(b0: seq<Bucket>, ghost all: seq<byte>)
      returns (ok: bool, front: seq<Bucket>, rest: seq<Bucket>, ghost stalls: nat)
      requires EosLast(b0) && Counting([], b0, all)
      modifies this`bytesSent, this`dataSent, this`passes, this`forwarded, this`passed
      ensures Counting(front, rest, all) && old(forwarded) <= forwarded
      ensures ok ==> rest == if EndsInEos(b0) then [Eos] else []
      ensures !ok ==> front == [] && stalls > 0
      ensures passes == old(passes) + stalls && ok == Took(next, old(passes), passes)
      ensures if stalls == 0 then dataSent == old(dataSent) && forwarded == old(forwarded) else dataSent || !ok
      ensures stalls == 0 <==> Prompt(b0)
      ensures Handing(b0, old(passed), passed, front, rest) && |passed| == |old(passed)| + stalls
    {
      ghost var k := 0;
      var eblock := Nonblocking;
      ok, front, rest, stalls := true, [], b0, 0;
      while rest != [] && !rest[0].Eos? && ok
        invariant Counting(front, rest, all) && old(forwarded) <= forwarded
        invariant EosLast(rest) && EndsInEos(rest) == EndsInEos(b0)
        invariant passes == old(passes) + stalls && ok == Took(next, old(passes), passes)
        invariant if stalls == 0 then dataSent == old(dataSent) && forwarded == old(forwarded) else dataSent || !ok
        invariant !ok ==> front == [] && stalls > 0
        invariant InStep(AllPieces(b0), k, front, rest, eblock, stalls)
        invariant eblock.Blocking? ==> rest != [] && rest[0].Pipe?
        invariant Handing(b0, old(passed), passed, front, rest) && |passed| == |old(passed)| + stalls
        decreases ok, Work(rest), eblock.Nonblocking?
      {
        ghost var passes0 := passes;
        if rest[0].Pipe? {
          ok, front, rest, eblock, k, stalls := StepPipe(front, rest, eblock, all, AllPieces(b0), k, stalls, b0,
                                                             old(passed));
          TookMore(next, old(passes), passes0, passes);
        } else {
          TakeOther(rest, eblock);
          StepTaken(AllPieces(b0), k, front, rest, eblock, stalls, rest[0], rest[1..]);
          HandOne(b0, old(passed), passed, front, rest);
          k := k + 1;
          front, rest := CountOne(front, rest, all);
        }
      }
      StepsEnd(b0, k, front, rest, eblock, stalls);
    }

    /** After the counting loop: announce the length, if that is possible, and pass on
        what is left. */
    method Finish(ghost b0: seq<Bucket>, front: seq<Bucket>, rest: seq<Bucket>, ghost all: seq<byte>,
                  ghost before: seq<seq<Bucket>>)
      returns (ok: bool, announced: bool)
      requires Counting(front, rest, all) && rest == if EndsInEos(b0) then [Eos] else []
      requires Handing(b0, before, passed, front, rest)
      modifies this`contentLength, this`dataSent, this`passes, this`forwarded, this`passed
      ensures announced <==> !old(dataSent) && EndsInEos(b0) && !(headerOnly && all == [] && old(contentLength).Some?)
      ensures contentLength == if announced then Some(|all|) else old(contentLength)
      ensures dataSent && passes == old(passes) + 1 && ok == next(old(passes))
      ensures forwarded == all && bytesSent == |all|
      ensures HandedOn(b0, before, passed, true) && |passed| == |old(passed)| + 1
    {
      HandLast(b0, before, passed, front, rest);
      assert Content(rest) == [] by { FlattenOne(Data, Eos); }
      assert Content(front) + [] == Content(front);
      announced := !dataSent && rest != [] && !(headerOnly && bytesSent == 0 && contentLength.Some?);
      if announced {
        contentLength := Some(bytesSent);
      }
      dataSent := true;
      FlattenConcat(Data, front, rest);
      ok := Pass(front + rest);
    }

    /** ap_content_length_filter. */
    method Write(b0: seq<Bucket>) returns (ok: bool, announced: bool)
      requires Valid() && EosLast(b0)
      modifies this
      ensures Valid()
      ensures passes > old(passes) && ok == Took(next, old(passes), passes)
      ensures old(forwarded) <= forwarded <= old(forwarded) + Content(b0)
      ensures ok || announced ==> forwarded == old(forwarded) + Content(b0) && dataSent
      ensures announced <==>
                && !old(dataSent) && EndsInEos(b0) && Prompt(b0)
                && !(headerOnly && old(forwarded) + Content(b0) == [] && old(contentLength).Some?)
      ensures contentLength == if announced then Some(|old(forwarded) + Content(b0)|) else old(contentLength)
      ensures HandedOn(b0, old(passed), passed, true) || (!ok && HandedOn(b0, old(passed), passed, false))
    {
      ghost var all := forwarded + Content(b0);
      assert [] + Content(b0) == Content(b0);
      var front, rest;
      ghost var stalls;
      ok, front, rest, stalls := CountAll(b0, all);
      if ok {
        TookMore(next, old(passes), passes, passes + 1);
        ok, announced := Finish(b0, front, rest, all, old(passed));
      } else {
        assert Content([]) + Content(rest) == Content(rest);
        HandFailed(b0, old(passed), passed, front, rest);
        announced := false;
      }
    }
  }

  /** A complete body that need not be sent in parts, for which no length was
      preset in vain. */
  predicate Announceable(b: seq<Bucket>, headerOnly: bool, preset: Option<nat>) {
    && EndsInEos(b) && Prompt(b)
    && !(headerOnly && Content(b) == [] && preset.Some?)
  }

  /** A whole response, brigade by brigade, EOS closing the last one. As long as
      the next filter takes everything, the body is forwarded unchanged and fully
      counted, and a length that is announced is that of the whole body. */
  method Respond(next: Downstream, headerOnly: bool, preset: Option<nat>, brigades: seq<seq<Bucket>>)
    returns (bytesSent: nat, contentLength: Option<nat>, forwarded: seq<byte>, passes: nat, announced: bool,
             passed: seq<seq<Bucket>>)
    requires forall i | 0 <= i < |brigades| :: EosLast(brigades[i]) && (i < |brigades| - 1 ==> !EndsInEos(brigades[i]))
    ensures bytesSent == |forwarded| && passes >= |brigades|
    ensures Took(next, 0, passes) ==> forwarded == Flatten(Content, brigades)
    ensures contentLength == if announced then Some(bytesSent) else preset
    ensures announced && Took(next, 0, passes) ==> |brigades| == 1
    ensures |brigades| == 1 ==> (announced <==> Announceable(brigades[0], headerOnly, preset))
    ensures |passed| == passes && Responded(brigades, |brigades|, passed, Took(next, 0, passes))
  {
    var f := new Filter(next, headerOnly, preset);
    announced := false;
    var i := 0;
    while i < |brigades|
      invariant 0 <= i <= |brigades| && fresh(f) && f.Valid() && f.next == next && f.headerOnly == headerOnly
      invariant f.passes >= i
      invariant f.Smooth() ==> f.forwarded == Flatten(Content, brigades[..i]) && (f.dataSent <==> i > 0)
      invariant f.contentLength == if announced then Some(f.bytesSent) else preset
      invariant announced ==> i == |brigades| && (f.Smooth() ==> |brigades| == 1)
      invariant i == 0 ==> f.forwarded == [] && !f.dataSent && f.contentLength == preset
      invariant |brigades| == 1 && i == 1 ==> (announced <==> Announceable(brigades[0], headerOnly, preset))
      invariant Responded(brigades, i, f.passed, f.Smooth())
    {
      ghost var passes0, passed0, smooth0 := f.passes, f.passed, f.Smooth();
      var ok;
      assert [] + Content(brigades[i]) == Content(brigades[i]);
      ok, announced := f.Write(brigades[i]);
      TookMore(next, 0, passes0, f.passes);
      RespondedMore(brigades, i, passed0, f.passed, smooth0, f.Smooth(),
                    HandedOn(brigades[i], passed0, f.passed, true));
      FlattenExtend(Content, brigades, i);
      i := i + 1;
    }
    assert brigades[..|brigades|] == brigades;
    bytesSent, contentLength, forwarded, passes := f.bytesSent, f.contentLength, f.forwarded, f.passes;
    passed := f.passed;
  }
}
