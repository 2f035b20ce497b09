/** One pass of the core output filter over a brigade: collect up to 16 iovecs,
    at most one file and up to 16 trailers, merging small buckets on the way. */
module Gathering {
  import opened Flattening
  import opened Basics
  import opened Buckets
  import opened Senders

  const MAX_IOVEC: nat := 16
  const MIN_SENDFILE_BYTES: nat := 256
  const MIN_BYTES_TO_WRITE: nat := 8000

  /** End of stream and end of connection close a brigade: nothing follows them. */
  predicate WellFormed(bs: seq<Bucket>) {
    forall i | 0 <= i < |bs| - 1 :: !bs[i].Eos? && !bs[i].Eoc?
  }

  ghost predicate AllInMemory(bs: seq<Bucket>) {
    forall i | 0 <= i < |bs| :: InMemory(bs[i])
  }

  /** In memory, but for at most one file. */
  ghost predicate Settled(bs: seq<Bucket>) {
    && (forall i | 0 <= i < |bs| :: InMemory(bs[i]) || bs[i].File?)
    && (forall i, j | 0 <= i < j < |bs| :: !(bs[i].File? && bs[j].File?))
  }

  /** A file long enough to be sent as one; a shorter one is read. */
  predicate BigFile(b: Bucket) {
    b.File? && b.range.length >= MIN_SENDFILE_BYTES
  }

  ghost predicate NoBigFiles(bs: seq<Bucket>) {
    forall i | 0 <= i < |bs| :: !BigFile(bs[i])
  }

  /** A file that goes out by sendfile. */
  predicate BySendfile(b: Bucket) {
    BigFile(b) && b.sendfile
  }

  function Piece(b: Bucket): nat {
    if Data(b) == [] then 0 else 1
  }

  /** The buckets that have bytes. */
  function Pieces(bs: seq<Bucket>): nat {
    Sum(Piece, bs)
  }

  /** What is left of a brigade that a pass takes whole: no flush, no pipe, one
      big file at most and after it no more pieces than there are trailers. */
  ghost predicate Rest(bs: seq<Bucket>, file: bool, used: nat) {
    && (forall i | 0 <= i < |bs| :: !bs[i].Pipe? && !bs[i].Flush? && !bs[i].Eoc?)
    && (if file then NoBigFiles(bs) && used + Pieces(bs) <= MAX_IOVEC
        else forall i | 0 <= i < |bs| && BigFile(bs[i]) :: NoBigFiles(bs[i + 1..]) && Pieces(bs[i + 1..]) <= MAX_IOVEC)
  }

  lemma {:induction false} RestNext(bs: seq<Bucket>, file: bool, used: nat)
    requires bs != []
    ensures Rest(bs, file, used) ==>
              && (file ==> !BigFile(bs[0]) && used + Piece(bs[0]) <= MAX_IOVEC)
              && if BigFile(bs[0]) then Rest(bs[1..], true, 0)
                 else Rest(bs[1..], file, if file then used + Piece(bs[0]) else used)
  {
    var t := bs[1..];
    if !file {
      forall i | 0 <= i < |t| && BigFile(t[i]) ensures t[i + 1..] == bs[i + 1 + 1..] && BigFile(bs[i + 1]) {}
    }
  }

  /** Reading a small file. */
  lemma {:induction false} RestRead(bs: seq<Bucket>, file: bool, used: nat, block: ReadType)
    requires bs != [] && !BigFile(bs[0])
    ensures
      var r := ReadBucket(bs[0], block);
      Rest(bs, file, used) ==> r.Some? && Rest(r.value + bs[1..], file, used)
  {
    if !bs[0].Pipe? {
      var r := ReadBucket(bs[0], block).value;
      var t := r + bs[1..];
      assert |r| == 1 && Data(r[0]) == Data(bs[0]);
      assert t[1..] == bs[1..] && t[0] == r[0];
      assert Pieces(t) == Pieces(bs);
      forall i | 0 <= i < |t| && BigFile(t[i]) ensures t[i + 1..] == bs[i + 1..] && BigFile(bs[i]) {}
    }
  }

  /** The bytes of the file found in this pass, if any. */
  function BodyBytes(file: Option<FileRange>): seq<byte> {
    if file.Some? then FileBytes(file.value) else []
  }

  /** The iovecs, file and trailers collected in one pass. */
  class Batch {
    var vec: array<Iovec>
    var nvec: nat
    var trailers: array<Iovec>
    var nvecTrailers: nat
    var nbytes: nat                 // bytes in the iovecs, without the file
    var file: Option<FileRange>
    var sendfile: bool
    ghost var spelled: seq<byte>    // headers, file and trailers

    ghost predicate Valid()
      reads this, vec, trailers
    {
      && vec.Length == trailers.Length == MAX_IOVEC && vec != trailers
      && nvec <= MAX_IOVEC && nvecTrailers <= MAX_IOVEC
      && spelled == VecBytes(vec[..nvec]) + BodyBytes(file) + VecBytes(trailers[..nvecTrailers])
      && nbytes == |VecBytes(vec[..nvec])| + |VecBytes(trailers[..nvecTrailers])|
      && (if file.None? then nvecTrailers == 0 else file.value.length >= MIN_SENDFILE_BYTES)
    }

    constructor ()
      ensures Valid() && fresh(vec) && fresh(trailers)
      ensures spelled == [] && nbytes == 0 && nvec == 0 && nvecTrailers == 0 && file.None?
    {
      vec, trailers := new Iovec[MAX_IOVEC](_ => []), new Iovec[MAX_IOVEC](_ => []);
      nvec, nvecTrailers, nbytes, file, sendfile := 0, 0, 0, None, false;
      spelled := [];
    }

    predicate Full()
      reads this
    {
      if file.None? then nvec == MAX_IOVEC else nvecTrailers == MAX_IOVEC
    }

    /** Append bytes as an iovec, a trailer once there is a file. */
    method Add(str: seq<byte>)
      requires Valid() && !Full()
      modifies this, vec, trailers
      ensures Valid() && vec == old(vec) && trailers == old(trailers)
      ensures spelled == old(spelled) + str && nbytes == old(nbytes) + |str|
      ensures file == old(file) && sendfile == old(sendfile)
      ensures nvec + nvecTrailers == old(nvec + nvecTrailers) + 1
      ensures file.Some? ==> nvec == old(nvec)
    {
      if file.None? {
        ghost var before := vec[..nvec];
        vec[nvec] := str;
        nvec := nvec + 1;
        assert vec[..nvec] == before + [str];
        FlattenAppend(IovBytes, before, str);
      } else {
        ghost var before := trailers[..nvecTrailers];
        ghost var head := VecBytes(vec[..nvec]) + BodyBytes(file);
        trailers[nvecTrailers] := str;
        nvecTrailers := nvecTrailers + 1;
        assert trailers[..nvecTrailers] == before + [str];
        FlattenAppend(IovBytes, before, str);
        Assoc(head, VecBytes(before), str);
      }
      spelled := spelled + str;
      nbytes := nbytes + |str|;
    }

    /** Start over with one iovec, after a merge. */
    method Restart(str: seq<byte>)
      requires Valid() && file.None?
      modifies this, vec
      ensures Valid() && vec == old(vec) && trailers == old(trailers) && sendfile == old(sendfile)
      ensures spelled == str && nbytes == |str| && file.None? && nvec == 1 && nvecTrailers == 0
    {
      vec[0] := str;
      nvec := 1;
      nbytes := |str|;
      spelled := str;
      assert vec[..1] == [str];
      FlattenOne(IovBytes, str);
    }

    method SetFile(range: FileRange, sendfile: bool)
      requires Valid() && file.None? && range.length >= MIN_SENDFILE_BYTES
      modifies this
      ensures Valid() && vec == old(vec) && trailers == old(trailers)
      ensures spelled == old(spelled) + FileBytes(range) && nbytes == old(nbytes)
      ensures file == Some(range) && this.sendfile == sendfile && nvec == old(nvec) && nvecTrailers == 0
    {
      file := Some(range);
      this.sendfile := sendfile;
      spelled := spelled + FileBytes(range);
    }

    /** The bytes of the batch, with the file. */
    function Size(): nat
      reads this
    {
      nbytes + if file.Some? then file.value.length else 0
    }

    lemma {:induction false} SizeIsLength()
      requires Valid()
      ensures |spelled| == Size()
    {}

    /** Hand the batch to the network. */
    method Send(s: Socket) returns (status: Status, sent: nat)
      requires Valid()
      modifies s, vec, trailers
      ensures Pushed(s.sched, old(s.step), s.step, old(s.wire), s.wire, spelled, status, sent)
      ensures Short(s.sched, s.step, |spelled|, status, sent)
      ensures file.None? ==> Brisk(old(s.step), s.step, |spelled|, status, sent)
      ensures file.Some? && sendfile ==> s.step > old(s.step) && (Mute(s.sched(old(s.step))) || sent > 0)
      ensures spelled == old(spelled)
    {
      if file.Some? {
        if sendfile {
          status, sent := SendfileItAll(s, vec, nvec, file.value, trailers, nvecTrailers, Size());
        } else {
          status, sent := EmulateSendfile(s, vec, nvec, file.value, trailers, nvecTrailers);
        }
      } else {
        assert spelled == VecBytes(vec[..nvec]);
        status, sent := WritevItAll(s, vec, nvec, nbytes);
      }
    }
  }

  /** Merge the collected buckets, all in memory and fewer than BUFF_SIZE bytes
      together, into one heap bucket. `merged` says that the first of them is
      itself the product of an earlier merge. */
  method Coalesce(front: seq<Bucket>, merged: bool) returns (temp: seq<Bucket>)
    requires front != [] && AllInMemory(front) && |Content(front)| < BUFF_SIZE
    requires merged ==> front[0].Heap? && front[0].alloc == BUFF_SIZE
    ensures temp == [Heap(Content(front), BUFF_SIZE)]
  {
    var b;
    ghost var acc: seq<byte>;
    if merged {
      temp, b, acc := [front[0]], front[1..], front[0].data;
    } else {
      temp, b, acc := [], front, [];
    }
    ContentHead(front);
    ghost var total := Content(front);
    while b != []
      invariant AllInMemory(b)
      invariant temp == [Heap(acc, BUFF_SIZE)] || (temp == [] && acc == [] && b != [])
      invariant acc + Content(b) == total
      decreases |b|
    {
      var r := ReadBucket(b[0], Blocking);
      assert InMemory(b[0]) && r.value[0] == b[0];
      var str := Data(r.value[0]);
      ContentHead(b);
      WriteFits(acc, str);
      Assoc(acc, str, Content(b[1..]));
      assert (acc + str) + Content(b[1..]) == total;
      temp := BrigadeWrite(temp, str);
      acc := acc + str;
      b := b[1..];
    }
    assert acc + [] == acc;
  }

  lemma {:induction false} WriteFits(acc: seq<byte>, str: seq<byte>)
    requires |acc| + |str| <= BUFF_SIZE
    ensures BrigadeWrite([Heap(acc, BUFF_SIZE)], str) == [Heap(acc + str, BUFF_SIZE)]
    ensures BrigadeWrite([], str) == [Heap([] + str, BUFF_SIZE)]
  {
    var b := [Heap(acc, BUFF_SIZE)];
    assert b[..|b| - 1] + [Heap(acc + str, BUFF_SIZE)] == [Heap(acc + str, BUFF_SIZE)];
    assert [] + str == str;
  }

  /** A brigade's closing mark survives into what is left of it. */
  ghost predicate SameEnd(b0: seq<Bucket>, rest: seq<Bucket>) {
    && (b0 != [] && IsMark(b0[|b0| - 1]) ==> rest != [] && rest[|rest| - 1] == b0[|b0| - 1])
    && (rest != [] && IsMark(rest[|rest| - 1]) ==> b0 != [] && rest[|rest| - 1] == b0[|b0| - 1])
  }

  /** What holds between two iterations of the walk: front was taken, rest is
      still to come, and together they are b0 as far as its bytes go. */
  ghost predicate Walking(b0: seq<Bucket>, eblock0: ReadType, front: seq<Bucket>, rest: seq<Bucket>,
                          merged: bool, haveFile: bool, eblock: ReadType)
  {
    && Content(front) + Content(rest) == Content(b0)
    && (merged ==> front != [] && front[0].Heap? && front[0].alloc == BUFF_SIZE)
    && Settled(front) && (!haveFile ==> AllInMemory(front))
    && WellFormed(rest) && SameEnd(b0, rest)
    && Work(rest) <= Work(b0)
    // once something is collected, no read waits
    && (if front == [] then eblock == eblock0 else Work(rest) < Work(b0) && eblock.Nonblocking?)
  }

  /** Reading the first bucket of rest changes neither its bytes nor its shape. */
  lemma {:induction false} WalkRead(b0: seq<Bucket>, eblock0: ReadType, front: seq<Bucket>, rest: seq<Bucket>,
                 merged: bool, haveFile: bool, eblock: ReadType, r: seq<Bucket>)
    requires Walking(b0, eblock0, front, rest, merged, haveFile, eblock)
    requires rest != [] && !IsMark(rest[0]) && ReadBucket(rest[0], eblock) == Some(r)
    ensures
      var rest' := r + rest[1..];
      && r != [] && InMemory(rest'[0]) && Work(rest') <= Work(rest)
      && Walking(b0, eblock0, front, rest', merged, haveFile, if front == [] then eblock0 else Nonblocking)
  {
    ReadKeepsContent(rest[0], eblock);
    ReadInPlace(rest, eblock);
  }

  /** Taking the first bucket of rest. */
  lemma {:induction false} WalkTake(b0: seq<Bucket>, eblock0: ReadType, front: seq<Bucket>, rest: seq<Bucket>,
                 merged: bool, haveFile: bool, eblock: ReadType)
    requires Walking(b0, eblock0, front, rest, merged, haveFile, if front == [] then eblock0 else eblock)
    requires rest != [] && (InMemory(rest[0]) || (!haveFile && rest[0].File?)) && eblock.Nonblocking?
    ensures Walking(b0, eblock0, front + [rest[0]], rest[1..], merged, haveFile || rest[0].File?, eblock)
    ensures Content(front + [rest[0]]) == Content(front) + Data(rest[0]) && Work(rest[1..]) < Work(rest)
  {
    MoveOne(front, rest);
  }

  /** The outcome of a pass over b0. */
  ghost predicate PassDone(b0: seq<Bucket>, eblock0: ReadType, front: seq<Bucket>, haveFile: bool,
                           more: Option<seq<Bucket>>, last: Bucket, eblock: ReadType)
  {
    // what was taken and what is left are the brigade
    && Content(front) + (if more.Some? then Content(more.value) else []) == Content(b0)
    // shape
    && Settled(front) && (!haveFile ==> AllInMemory(front))
    && (last.Eos? || last.Eoc? || more.None? ==> more.None? && SameEnd(b0, [last]))
    // progress
    && (more.Some? ==>
          && more.value != [] && WellFormed(more.value) && SameEnd(b0, more.value)
          && Work(more.value) <= Work(b0)
          && (Work(more.value) == Work(b0) ==> eblock0.Nonblocking? && eblock.Blocking?))
    // the next pass waits only at a pipe in front of it
    && (eblock.Blocking? ==> more.Some? && more.value[0].Pipe?)
  }

  /** The walk stops at a mark, which closes the brigade unless it is a flush. */
  lemma {:induction false} StopAtMark(b0: seq<Bucket>, eblock0: ReadType, front: seq<Bucket>, rest: seq<Bucket>,
                   merged: bool, haveFile: bool, eblock: ReadType)
    requires Walking(b0, eblock0, front, rest, merged, haveFile, eblock)
    requires rest != [] && IsMark(rest[0]) && eblock.Nonblocking?
    ensures PassDone(b0, eblock0, front, haveFile, if |rest| > 1 then Some(rest[1..]) else None, rest[0], eblock)
    ensures !rest[0].Flush? ==> |rest| == 1
  {
    ContentHead(rest);
    WorkHead(rest);
    if |rest| == 1 {
      assert rest == [rest[0]];
    }
  }

  /** The walk stops before a bucket it leaves to the next pass. */
  lemma {:induction false} StopBefore(b0: seq<Bucket>, eblock0: ReadType, front: seq<Bucket>, rest: seq<Bucket>,
                   merged: bool, haveFile: bool, eblock: ReadType, last: Bucket, eblock': ReadType)
    requires Walking(b0, eblock0, front, rest, merged, haveFile, eblock)
    requires rest != [] && !IsMark(last)
    requires front != [] || (eblock.Nonblocking? && eblock'.Blocking?)
    requires eblock'.Blocking? ==> rest[0].Pipe?
    ensures PassDone(b0, eblock0, front, haveFile, Some(rest), last, eblock')
  {}

  /** Collect the data bucket at the head of rest. When the iovecs are used up,
      either stop (enough bytes for a write, or trailers) or merge what was
      collected so far and leave the bucket for the next iteration. */
  method TakeData(ghost b0: seq<Bucket>, ghost eblock0: ReadType, front0: seq<Bucket>, rest0: seq<Bucket>,
                  merged0: bool, batch: Batch)
    returns (full: bool, front: seq<Bucket>, rest: seq<Bucket>, merged: bool)
    requires rest0 != [] && InMemory(rest0[0])
    requires batch.Valid() && batch.spelled == Content(front0)
    requires Walking(b0, eblock0, front0, rest0, merged0, batch.file.Some?,
                     if front0 == [] then eblock0 else Nonblocking)
    requires front0 == [] ==> batch.nvec == 0 && batch.file.None?
    modifies batch, batch.vec, batch.trailers
    ensures batch.Valid() && batch.vec == old(batch.vec) && batch.trailers == old(batch.trailers)
    ensures front != [] && batch.spelled == Content(front)
    ensures batch.file == old(batch.file) && batch.sendfile == old(batch.sendfile)
    ensures rest == rest0 || rest == rest0[1..]
    ensures Walking(b0, eblock0, front, rest, merged, batch.file.Some?, Nonblocking)
    ensures full ==> front == front0 && rest == rest0
    ensures !full ==> InMemory(front[|front| - 1])
    ensures |Content(b0)| < MIN_BYTES_TO_WRITE && Rest(rest0, batch.file.Some?, old(batch.nvecTrailers)) ==>
              !full && Rest(rest, batch.file.Some?, batch.nvecTrailers)
    ensures !full ==> Work(rest) < Work(rest0) || (rest == rest0 && batch.nvec < old(batch.nvec))
  {
    full, front, rest, merged := false, front0, rest0, merged0;
    var str := Data(rest[0]);
    RestNext(rest, batch.file.Some?, batch.nvecTrailers);
    if str != [] {
      if batch.Full() {
        if batch.file.Some? || batch.nbytes >= MIN_BYTES_TO_WRITE {
          full := true;
          return;
        }
        batch.SizeIsLength();
        front := Coalesce(front, merged);
        FlattenOne(Data, front[0]);
        merged := true;
        batch.Restart(front[0].data);
        return;
      }
      batch.Add(str);
    }
    WalkTake(b0, eblock0, front, rest, merged, batch.file.Some?, Nonblocking);
    front, rest := front + [rest[0]], rest[1..];
  }

  lemma {:induction false} ReadNoBigFiles(rest: seq<Bucket>, block: ReadType)
    requires rest != [] && !BigFile(rest[0]) && ReadBucket(rest[0], block).Some?
    ensures NoBigFiles(rest) ==> NoBigFiles(ReadBucket(rest[0], block).value + rest[1..])
  {}

  /** What a step does about files: one that was found stays, none comes from
      buckets without any, and one at the front of the brigade is taken. */
  ghost predicate FileStep(front0: seq<Bucket>, rest0: seq<Bucket>, file0: Option<FileRange>, sendfile0: bool,
                           rest: seq<Bucket>, file: Option<FileRange>, sendfile: bool)
  {
    && (file0.Some? ==> file == file0 && sendfile == sendfile0)
    && (file0.None? && NoBigFiles(rest0) ==> file.None? && NoBigFiles(rest))
    && (front0 == [] && rest0 != [] && BySendfile(rest0[0]) ==> file.Some? && sendfile)
  }

  /** Reading the first bucket of rest, which is neither a mark nor a big file. */
  lemma {:induction false} ReadHead(b0: seq<Bucket>, eblock0: ReadType, front: seq<Bucket>, rest: seq<Bucket>,
                                    merged: bool, haveFile: bool, eblock: ReadType, used: nat, rest': seq<Bucket>)
    requires Walking(b0, eblock0, front, rest, merged, haveFile, eblock)
    requires rest != [] && !IsMark(rest[0]) && !BigFile(rest[0]) && ReadBucket(rest[0], eblock).Some?
    requires rest' == ReadBucket(rest[0], eblock).value + rest[1..]
    ensures rest' != [] && InMemory(rest'[0]) && Work(rest') <= Work(rest)
    ensures Walking(b0, eblock0, front, rest', merged, haveFile, if front == [] then eblock0 else Nonblocking)
    ensures NoBigFiles(rest) ==> NoBigFiles(rest')
    ensures Rest(rest, haveFile, used) ==> Rest(rest', haveFile, used)
  {
    WalkRead(b0, eblock0, front, rest, merged, haveFile, eblock, ReadBucket(rest[0], eblock).value);
    ReadNoBigFiles(rest, eblock);
    RestRead(rest, haveFile, used, eblock);
  }

  /** The inner loop at a bucket that is neither a mark nor a file to be sent as
      such: it is read, and collected as far as there is room. */
  method VisitData(ghost b0: seq<Bucket>, ghost eblock0: ReadType, front0: seq<Bucket>, rest0: seq<Bucket>,
                   merged0: bool, eblock1: ReadType, batch: Batch)
    returns (stop: bool, front: seq<Bucket>, rest: seq<Bucket>, merged: bool, last: Bucket, eblock: ReadType)
    requires rest0 != [] && !IsMark(rest0[0]) && !BigFile(rest0[0])
    requires batch.Valid() && batch.spelled == Content(front0)
    requires Walking(b0, eblock0, front0, rest0, merged0, batch.file.Some?, eblock1)
    requires front0 == [] ==> batch.nvec == 0 && batch.file.None?
    modifies batch, batch.vec, batch.trailers
    ensures batch.Valid() && batch.vec == old(batch.vec) && batch.trailers == old(batch.trailers)
    ensures batch.spelled == Content(front) && !IsMark(last)
    ensures stop ==> PassDone(b0, eblock0, front, batch.file.Some?, Some(rest), last, eblock)
    ensures !stop ==> Walking(b0, eblock0, front, rest, merged, batch.file.Some?, eblock) && front != []
    ensures !stop ==> Work(rest) < Work(rest0) || (Work(rest) == Work(rest0) && batch.nvec < old(batch.nvec))
    ensures batch.file == old(batch.file) && batch.sendfile == old(batch.sendfile)
    ensures NoBigFiles(rest0) ==> NoBigFiles(rest)
    ensures |Content(b0)| < MIN_BYTES_TO_WRITE && Rest(rest0, batch.file.Some?, old(batch.nvecTrailers)) ==>
              !stop && Rest(rest, batch.file.Some?, batch.nvecTrailers)
  {
    stop, front, rest, merged, last, eblock := true, front0, rest0, merged0, rest0[0], eblock1;
    var r := ReadBucket(last, eblock);
    if r.None? {
      StopBefore(b0, eblock0, front, rest, merged, batch.file.Some?, eblock, last, Blocking);
      eblock := Blocking;
    } else {
      rest := r.value + rest[1..];
      ReadHead(b0, eblock0, front, rest0, merged, batch.file.Some?, eblock, batch.nvecTrailers, rest);
      eblock := Nonblocking;
      stop, front, rest, merged := TakeData(b0, eblock0, front, rest, merged, batch);
      if stop {
        StopBefore(b0, eblock0, front, rest, merged, batch.file.Some?, eblock, last, eblock);
      } else {
        last := front[|front| - 1];
      }
    }
  }

  /** The inner loop at a mark: the pass ends, and what follows a flush is left. */
  method VisitMark(ghost b0: seq<Bucket>, ghost eblock0: ReadType, ghost front: seq<Bucket>, rest: seq<Bucket>,
                   ghost merged: bool, ghost haveFile: bool, ghost eblock: ReadType)
    returns (more: Option<seq<Bucket>>)
    requires Walking(b0, eblock0, front, rest, merged, haveFile, eblock)
    requires rest != [] && IsMark(rest[0]) && eblock.Nonblocking?
    ensures PassDone(b0, eblock0, front, haveFile, more, rest[0], eblock)
    ensures more.Some? ==> rest[0].Flush? && more.value == rest[1..]
  {
    StopAtMark(b0, eblock0, front, rest, merged, haveFile, eblock);
    more := if rest[0].Flush? && |rest| > 1 then Some(rest[1..]) else None;
  }

  /** The inner loop at a file to be sent as such: it is taken, unless there is one. */
  method VisitFile(ghost b0: seq<Bucket>, ghost eblock0: ReadType, front0: seq<Bucket>, rest0: seq<Bucket>,
                   ghost merged: bool, ghost eblock: ReadType, batch: Batch)
    returns (stop: bool, front: seq<Bucket>, rest: seq<Bucket>)
    requires rest0 != [] && BigFile(rest0[0]) && eblock.Nonblocking?
    requires batch.Valid() && batch.spelled == Content(front0)
    requires Walking(b0, eblock0, front0, rest0, merged, batch.file.Some?, eblock)
    requires front0 == [] ==> batch.nvec == 0 && batch.file.None?
    modifies batch
    ensures batch.Valid() && batch.vec == old(batch.vec) && batch.trailers == old(batch.trailers)
    ensures batch.spelled == Content(front) && batch.file.Some?
    ensures stop ==> PassDone(b0, eblock0, front, true, Some(rest), rest0[0], eblock)
    ensures !stop ==> Walking(b0, eblock0, front, rest, merged, true, eblock) && front != []
    ensures !stop ==> Work(rest) < Work(rest0)
    ensures FileStep(front0, rest0, old(batch.file), old(batch.sendfile), rest, batch.file, batch.sendfile)
    ensures Rest(rest0, old(batch.file.Some?), old(batch.nvecTrailers)) ==>
              !stop && Rest(rest, true, batch.nvecTrailers)
  {
    stop, front, rest := batch.file.Some?, front0, rest0;
    RestNext(rest, stop, batch.nvecTrailers);
    if stop {
      StopBefore(b0, eblock0, front, rest, merged, true, eblock, rest[0], eblock);
    } else {
      WalkTake(b0, eblock0, front, rest, merged, false, eblock);
      batch.SetFile(rest[0].range, rest[0].sendfile);
      front, rest := front + [rest[0]], rest[1..];
    }
  }

  /** One iteration of the inner loop of ap_core_output_filter: the pass stops
      at a mark, at a second file, at a pipe with nothing to read yet or when the
      iovecs are used up; otherwise a bucket moves from rest to front. */
  method Visit(ghost b0: seq<Bucket>, ghost eblock0: ReadType, front0: seq<Bucket>, rest0: seq<Bucket>,
               merged0: bool, eblock1: ReadType, batch: Batch)
    returns (stop: bool, front: seq<Bucket>, rest: seq<Bucket>, merged: bool,
             more: Option<seq<Bucket>>, last: Bucket, eblock: ReadType)
    requires rest0 != [] && (eblock1.Blocking? ==> rest0[0].Pipe?)
    requires batch.Valid() && batch.spelled == Content(front0)
    requires Walking(b0, eblock0, front0, rest0, merged0, batch.file.Some?, eblock1)
    requires front0 == [] ==> batch.nvec == 0 && batch.file.None?
    modifies batch, batch.vec, batch.trailers
    ensures batch.Valid() && batch.vec == old(batch.vec) && batch.trailers == old(batch.trailers)
    ensures batch.spelled == Content(front)
    ensures stop ==> PassDone(b0, eblock0, front, batch.file.Some?, more, last, eblock)
    ensures !stop ==> Walking(b0, eblock0, front, rest, merged, batch.file.Some?, eblock)
    ensures !stop ==> front != [] && more.None? && !IsMark(last)
    ensures !stop ==> Work(rest) < Work(rest0) || (Work(rest) == Work(rest0) && batch.nvec < old(batch.nvec))
    ensures FileStep(front0, rest0, old(batch.file), old(batch.sendfile),
                     if more.Some? then more.value else if stop then [] else rest, batch.file, batch.sendfile)
    ensures |Content(b0)| < MIN_BYTES_TO_WRITE && Rest(rest0, old(batch.file.Some?), old(batch.nvecTrailers)) ==>
              more.None? && if stop then last.Eos? else Rest(rest, batch.file.Some?, batch.nvecTrailers)
  {
    stop, front, rest, merged, more, last, eblock := true, front0, rest0, merged0, None, rest0[0], eblock1;
    if IsMark(last) {
      more := VisitMark(b0, eblock0, front, rest, merged, batch.file.Some?, eblock);
    } else if BigFile(last) {
      stop, front, rest := VisitFile(b0, eblock0, front, rest, merged, eblock, batch);
      if stop {
        more := Some(rest);
      }
    } else {
      stop, front, rest, merged, last, eblock := VisitData(b0, eblock0, front, rest, merged, eblock, batch);
      if stop {
        more := Some(rest);
      }
    }
  }

  /** The inner loop of ap_core_output_filter. `front` is what the pass takes off
      the brigade, `more` what a further pass has to handle, `last` the last
      bucket looked at. */
  method Gather(b0: seq<Bucket>, eblock0: ReadType, batch: Batch)
    returns (front: seq<Bucket>, more: Option<seq<Bucket>>, last: Bucket, eblock: ReadType)
    requires b0 != [] && WellFormed(b0) && (eblock0.Blocking? ==> b0[0].Pipe?)
    requires batch.Valid() && batch.spelled == [] && batch.file.None? && batch.nvec == 0
    modifies batch, batch.vec, batch.trailers
    ensures batch.Valid() && batch.vec == old(batch.vec) && batch.trailers == old(batch.trailers)
    ensures batch.spelled == Content(front)
    ensures PassDone(b0, eblock0, front, batch.file.Some?, more, last, eblock)
    ensures NoBigFiles(b0) ==> batch.file.None? && (more.Some? ==> NoBigFiles(more.value))
    ensures BySendfile(b0[0]) ==> batch.file.Some? && batch.sendfile
    ensures |Content(b0)| < MIN_BYTES_TO_WRITE && Rest(b0, false, 0) ==> more.None? && !last.Flush? && !last.Eoc?
  {
    front, more, eblock, last := [], None, eblock0, b0[0];
    var rest, merged, stop := b0, false, false;
    while !stop && rest != []
      invariant batch.Valid() && batch.vec == old(batch.vec) && batch.trailers == old(batch.trailers)
      invariant batch.spelled == Content(front)
      invariant stop ==> PassDone(b0, eblock0, front, batch.file.Some?, more, last, eblock)
      invariant !stop ==> more.None? && Walking(b0, eblock0, front, rest, merged, batch.file.Some?, eblock)
      invariant !stop ==> if front == [] then rest == b0 && batch.nvec == 0 && batch.file.None? else !IsMark(last)
      invariant NoBigFiles(b0) ==>
                  batch.file.None? && if more.Some? then NoBigFiles(more.value) else stop || NoBigFiles(rest)
      invariant BySendfile(b0[0]) ==> (!stop && front == []) || (batch.file.Some? && batch.sendfile)
      invariant |Content(b0)| < MIN_BYTES_TO_WRITE && Rest(b0, false, 0) ==>
                  more.None? && if stop then last.Eos? else Rest(rest, batch.file.Some?, batch.nvecTrailers)
      decreases !stop, Work(rest), batch.nvec
    {
      stop, front, rest, merged, more, last, eblock := Visit(b0, eblock0, front, rest, merged, eblock, batch);
    }
  }
}
