/** ap_core_input_filter: lines and byte ranges taken off a socket, in order, once
    each; looking ahead takes nothing. */
module InputFilter {
  import opened Flattening
  import opened Buckets

  const HUGE_STRING_LEN: nat := 8192
  const LF: byte := 10

  /** What one read from the socket gives. */
  datatype Recv = Received(data: seq<byte>) | Eof | Again | Broken(code: int)

  type Incoming = nat -> Recv

  /** A bucket of ctx->b: bytes read ahead, or the socket. */
  datatype InBucket = Bytes(data: seq<byte>) | Sock

  datatype Status = Success | EndOfFile | Fails(why: Recv)

  function EventBytes(r: Recv): seq<byte> {
    if r.Received? then r.data else []
  }

  /** All that the first n reads received. */
  function Stream(inc: Incoming, n: nat): seq<byte> {
    if n == 0 then [] else Stream(inc, n - 1) + EventBytes(inc(n - 1))
  }

  function InBytes(b: InBucket): seq<byte> {
    if b.Bytes? then b.data else []
  }

  function Ahead(b: seq<InBucket>): seq<byte> {
    Flatten(InBytes, b)
  }

  /** The socket is the last bucket, if it is there at all. */
  predicate SocketLast(b: seq<InBucket>) {
    forall i | 0 <= i < |b| - 1 :: b[i].Bytes?
  }

  lemma {:induction false} AheadHead(b: seq<InBucket>)
    requires b != []
    ensures Ahead(b) == InBytes(b[0]) + Ahead(b[1..])
  {}

  lemma {:induction false} AheadCons(x: InBucket, b: seq<InBucket>)
    ensures Ahead([x] + b) == InBytes(x) + Ahead(b)
  {
    assert ([x] + b)[1..] == b;
  }

  lemma {:induction false} SocketOnly()
    ensures Ahead([Sock]) == []
  {
    assert [Sock][1..] == [];
  }

  lemma {:induction false} AheadPair(data: seq<byte>)
    ensures Ahead([Bytes(data), Sock]) == data
  {
    assert [Bytes(data), Sock] == [Bytes(data)] + [Sock];
    AheadCons(Bytes(data), [Sock]);
    SocketOnly();
  }

  /** Halfway through dropping empty buckets from b: kept, then e. */
  ghost predicate Kept(b: seq<InBucket>, kept: seq<InBucket>, e: seq<InBucket>) {
    && (forall i | 0 <= i < |kept| :: kept[i].Bytes? ==> kept[i].data != [])
    && SocketLast(kept) && SocketLast(e)
    && (Sock in b <==> Sock in kept || Sock in e)
    && (e != [] ==> forall i | 0 <= i < |kept| :: kept[i].Bytes?)
    && (b != [] && b[0].Bytes? && b[0].data != [] ==> if kept == [] then e == b else kept[0] == b[0])
  }

  predicate Empty(x: InBucket) {
    x.Bytes? && x.data == []
  }

  lemma {:induction false} KeepOne(b: seq<InBucket>, kept: seq<InBucket>, e: seq<InBucket>)
    requires Kept(b, kept, e) && e != []
    ensures Kept(b, if Empty(e[0]) then kept else kept + [e[0]], e[1..])
  {}

  lemma {:induction false} KeepBytes(kept: seq<InBucket>, e: seq<InBucket>)
    requires e != []
    ensures Ahead(if Empty(e[0]) then kept else kept + [e[0]]) + Ahead(e[1..]) == Ahead(kept) + Ahead(e)
  {
    AheadHead(e);
    FlattenAppend(InBytes, kept, e[0]);
    Assoc(Ahead(kept), InBytes(e[0]), Ahead(e[1..]));
    assert [] + Ahead(e[1..]) == Ahead(e[1..]);
  }

  predicate Fed(r: Recv) {
    r.Received? && r.data != []
  }

  /** The reads from..to-1 all gave something. */
  predicate FedFrom(inc: Incoming, from: nat, to: nat) {
    forall k | from <= k < to :: Fed(inc(k))
  }

  /** A read that finds the end of the stream: in blocking mode, no bytes. */
  predicate AtEnd(r: Recv) {
    r.Eof? || r == Received([])
  }

  /** One of the first n reads found the end of the stream. */
  predicate Ended(inc: Incoming, n: nat) {
    exists k | 0 <= k < n :: AtEnd(inc(k))
  }

  lemma {:induction false} ReadMore(inc: Incoming, n: nat, taken: seq<byte>)
    requires taken + [] == Stream(inc, n)
    ensures taken + EventBytes(inc(n)) == Stream(inc, n + 1)
    ensures Ended(inc, n + 1) <==> Ended(inc, n) || AtEnd(inc(n))
  {
    assert taken + [] == taken;
  }

  /** The peer goes on sending. */
  ghost predicate Flows(inc: Incoming) {
    forall k :: Fed(inc(k))
  }

  /** Nothing is read ahead and the socket is gone. */
  predicate Exhausted(b: seq<InBucket>) {
    Ahead(b) == [] && Sock !in b
  }

  /** What reading the socket makes of an event: its bytes, or an empty bucket at
      the end, or the failure. */
  predicate Got(r: Recv, status: Status, b: seq<InBucket>) {
    if r.Again? || r.Broken? then status == Fails(r)
    else status.Success? && b != [] && b[0] == Bytes(EventBytes(r))
  }

  /** What the caller sees of an event: at most n of its bytes, nothing yet, or
      the failure. */
  predicate Answered(r: Recv, status: Status, out: seq<byte>, n: nat) {
    match r
    case Received(data) => status.Success? && out == data[..if |data| < n then |data| else n]
    case Broken(_) => status == Fails(r) && out == []
    case _ => status.Success? && out == []
  }

  class Filter {
    const inc: Incoming
    var step: nat
    var b: seq<InBucket>           // ctx->b
    var tmp: seq<InBucket>         // ctx->tmpbb
    ghost var taken: seq<byte>     // what callers were given for good

    /** The socket is only given up at the end of the stream. */
    ghost predicate Open()
      reads this
    {
      Sock in b || Ended(inc, step)
    }

    ghost predicate Valid()
      reads this
    {
      tmp == [] && Open() && SocketLast(b) && taken + Ahead(b) == Stream(inc, step)
    }

    /** All that arrived was handed out, and a read since then gave nothing, or the
        stream has ended. */
    ghost predicate Stuck(from: nat)
      reads this
    {
      Ahead(b) == [] && (Ended(inc, step) || !FedFrom(inc, from, step))
    }

    constructor (inc: Incoming)
      ensures Valid() && this.inc == inc && step == 0 && taken == [] && b == [Sock]
    {
      this.inc := inc;
      step, b, tmp, taken := 0, [Sock], [], [];
    }

    /** Reading the socket: it turns into what it gave, followed by itself, or into
        nothing at its end. */
    method ReadSocket() returns (status: Status)
      requires Valid() && b == [Sock]
      modifies this`b, this`step
      ensures Valid() && step == old(step) + 1 && Got(inc(old(step)), status, b)
      ensures b == if !status.Success? then [Sock] else if b[0].data == [] then [b[0]] else [b[0], Sock]
    {
      SocketOnly();
      ReadMore(inc, step, taken);
      var r := inc(step);
      step, status := step + 1, Success;
      if r.Received? && r.data != [] {
        b := [Bytes(r.data), Sock];
        AheadPair(r.data);
      } else if r.Received? || r.Eof? {
        b := [Bytes([])];
        AheadHead(b);
      } else {
        status := Fails(r);
      }
    }

    /** No read was made, or the last one did not break. */
    predicate Quiet(from: nat, to: nat)
      requires from <= to
    {
      from == to || !inc(to - 1).Broken?
    }

    /** apr_bucket_read of the first bucket. */
    method ReadFirst() returns (status: Status)
      requires Valid() && b != []
      modifies this`b, this`step
      ensures Valid()
      ensures old(b)[0].Bytes? ==> status.Success? && b == old(b) && step == old(step)
      ensures old(b)[0].Sock? ==> step == old(step) + 1 && Got(inc(old(step)), status, b)
      ensures status.Success? ==> b != [] && b[0].Bytes? && (b[0].data == [] ==> |b| == |old(b)|)
      ensures !status.Success? ==> b == old(b) == [Sock]
      ensures Flows(inc) && Sock in old(b) ==> status.Success? && Sock in b
    {
      status := Success;
      if b[0].Sock? {
        assert b == [Sock];
        status := ReadSocket();
      }
    }

    /** BRIGADE_NORMALIZE: drop the empty buckets. */
    method Normalize()
      requires Valid()
      modifies this`b
      ensures Valid() && Ahead(b) == Ahead(old(b)) && (Sock in b <==> Sock in old(b))
      ensures forall i | 0 <= i < |b| :: b[i].Bytes? ==> b[i].data != []
      ensures old(b) != [] && old(b)[0].Bytes? && old(b)[0].data != [] ==> b != [] && b[0] == old(b)[0]
    {
      var kept: seq<InBucket>, e := [], b;
      ghost var b0 := b;
      assert Ahead([]) + Ahead(b0) == Ahead(b0);
      while e != []
        invariant Kept(b0, kept, e) && Ahead(kept) + Ahead(e) == Ahead(b0)
        decreases |e|
      {
        KeepOne(b0, kept, e);
        KeepBytes(kept, e);
        if !Empty(e[0]) {
          kept := kept + [e[0]];
        }
        e := e[1..];
      }
      assert Ahead(kept) + Ahead([]) == Ahead(kept);
      b := kept;
    }

    /** The start of every call: an exhausted connection is reported. */
    method Prepare() returns (eof: bool)
      requires Valid()
      modifies this`b
      ensures Valid() && Ahead(b) == Ahead(old(b)) && (Sock in b <==> Sock in old(b))
      ensures eof == (b == [])
      ensures forall i | 0 <= i < |b| :: b[i].Bytes? ==> b[i].data != []
      ensures old(b) != [] && old(b)[0].Bytes? && old(b)[0].data != [] ==> b != [] && b[0] == old(b)[0]
    {
      if b == [] {
        return true;
      }
      Normalize();
      eof := b == [];
    }

    /** Take the first n bytes of the first bucket for good. */
    method Take(n: nat) returns (str: seq<byte>)
      requires Valid() && b != [] && b[0].Bytes? && n <= |b[0].data|
      modifies this`b, this`taken
      ensures Valid() && str == old(b)[0].data[..n] && taken == old(taken) + str
      ensures b == [Bytes(old(b)[0].data[n..])] + old(b)[1..]
    {
      var data := b[0].data;
      str := data[..n];
      AheadHead(b);
      TakeDrop(data, n);
      Assoc(data[..n], data[n..], Ahead(b[1..]));
      AheadCons(Bytes(data[n..]), b[1..]);
      Assoc(taken, str, data[n..] + Ahead(b[1..]));
      b := [Bytes(data[n..])] + b[1..];
      taken := taken + str;
    }

    /** Drop an emptied first bucket. */
    method DropFirst()
      requires Valid() && b != [] && b[0] == Bytes([])
      modifies this`b
      ensures Valid() && b == old(b)[1..]
    {
      AheadHead(b);
      b := b[1..];
    }

    /** Take the first bucket, up to and with its first line feed. */
    method CutLine() returns (found: bool, str: seq<byte>)
      requires Valid() && b != [] && b[0].Bytes?
      modifies this`b, this`taken
      ensures Valid() && taken == old(taken) + str
      ensures if found then str != [] && str[|str| - 1] == LF && LF !in str[..|str| - 1] else LF !in str
      ensures str == [] ==> |b| < |old(b)| && old(b)[0].data == []
      ensures Sock in old(b) ==> Sock in b
    {
      var pos := Find(b[0].data);
      found := pos < |b[0].data|;
      if found {
        str := Take(pos + 1);
      } else {
        str := Take(pos);
        DropFirst();
      }
    }

    /** One round of apr_brigade_split_line: take the first bucket, up to and with
        its first line feed. */
    method TakeToLine() returns (status: Status, found: bool, str: seq<byte>)
      requires Valid() && b != []
      modifies this
      ensures Valid() && taken == old(taken) + str
      ensures !status.Success? ==> str == []
      ensures found ==> str != [] && str[|str| - 1] == LF && LF !in str[..|str| - 1]
      ensures !found ==> LF !in str
      ensures status.Success? && str == [] ==> |b| < |old(b)|
      ensures step >= old(step) && (status.Success? ==> Quiet(old(step), step))
      ensures !status.Success? ==> status.Fails? && b == [Sock] && Failed(old(step), step, status.why)
      ensures Flows(inc) && Sock in old(b) ==> status.Success? && Sock in b
    {
      found, str := false, [];
      assert taken + [] == taken;
      status := ReadFirst();
      if status.Success? {
        found, str := CutLine();
      }
    }

    /** The last of the reads from..to-1 failed so. */
    predicate Failed(from: nat, to: nat, why: Recv) {
      from < to && inc(to - 1) == why && (why.Again? || why.Broken?)
    }

    /** One round more: what was taken goes behind what was collected. */
    method CollectOne(out0: seq<Bucket>, readbytes0: nat)
      returns (status: Status, found: bool, out: seq<Bucket>, readbytes: nat)
      requires Valid() && b != [] && readbytes0 == |Content(out0)| && Partial(Content(out0), false)
      modifies this
      ensures Valid() && readbytes == |Content(out)| && Partial(Content(out), found)
      ensures exists str :: Content(out) == Content(out0) + str && taken == old(taken) + str
      ensures if status.Success? && readbytes == readbytes0 then |b| < |old(b)| else readbytes >= readbytes0
      ensures Content(out) == [] && out0 == [] ==> out == []
      ensures step >= old(step) && (status.Success? ==> Quiet(old(step), step))
      ensures !status.Success? ==> !found && status.Fails? && b == [Sock] && Failed(old(step), step, status.why)
      ensures Flows(inc) && Sock in old(b) ==> status.Success? && Sock in b
    {
      var str;
      status, found, str := TakeToLine();
      CollectedBytes(out0, str);
      FlattenAppend(Data, out0, Mem(str));
      PartialMore(Content(out0), str, found);
      out := if found then out0 + [Mem(str)] else Collected(out0, str);
      readbytes := readbytes0 + |str|;
    }

    /** apr_brigade_split_line. */
    method SplitLine() returns (status: Status, out: seq<Bucket>)
      requires Valid()
      modifies this
      ensures Valid() && taken == old(taken) + Content(out) && LineShape(Content(out))
      ensures status.Success? ==> EndsLine(Content(out)) || |Content(out)| >= HUGE_STRING_LEN || b == []
      ensures !status.Success? ==> status.Fails? && b == [Sock] && Failed(old(step), step, status.why)
      ensures step >= old(step) && (status.Success? ==> Quiet(old(step), step))
      ensures Content(out) == [] ==> out == []
      ensures !status.Success? ==> LF !in Content(out)
      ensures Flows(inc) && Sock in old(b) ==> status.Success? && Sock in b
    {
      out, status := [], Success;
      assert taken + [] == taken;
      var readbytes, found := 0, false;
      while b != [] && readbytes < HUGE_STRING_LEN && status.Success? && !found
        invariant Valid() && readbytes == |Content(out)| && Partial(Content(out), found)
        invariant taken == old(taken) + Content(out) && old(step) <= step
        invariant status.Success? ==> Quiet(old(step), step)
        invariant !status.Success? ==> !found && status.Fails? && b == [Sock] && Failed(old(step), step, status.why)
        invariant Content(out) == [] ==> out == []
        invariant Flows(inc) && Sock in old(b) ==> status.Success? && Sock in b
        decreases status.Success? && !found, if readbytes < HUGE_STRING_LEN then HUGE_STRING_LEN - readbytes else 0, |b|
      {
        ghost var bytes, taken0 := Content(out), taken;
        status, found, out, readbytes := CollectOne(out, readbytes);
        ghost var str :| Content(out) == bytes + str && taken == taken0 + str;
        Assoc(old(taken), bytes, str);
      }
    }

    /** AP_MODE_GETLINE: EAGAIN is taken for success. */
    method GetLine() returns (status: Status, out: seq<Bucket>)
      requires Valid()
      modifies this
      ensures Valid()
      ensures taken == old(taken) + Content(out)
      ensures LineShape(Content(out))
      ensures status.EndOfFile? <==> Exhausted(old(b))
      ensures status.Success? ==>
                EndsLine(Content(out)) || |Content(out)| >= HUGE_STRING_LEN || b == [] || Failed(old(step), step, Again)
      ensures status.Fails? ==> !status.why.Again? && Failed(old(step), step, status.why)
      ensures step >= old(step) && (!status.Fails? ==> Quiet(old(step), step))
      ensures Content(out) == [] ==> out == []
      ensures !status.Success? || Content(out) == [] ==> Stuck(old(step)) && LF !in Content(out)
      ensures Flows(inc) && Sock in old(b) ==> Sock in b && Content(out) != []
    {
      out, status := [], EndOfFile;
      assert taken + [] == taken;
      var eof := Prepare();
      if eof {
        return;
      }
      AheadHead(b);
      SocketOnly();
      status, out := SplitLine();
      if status == Fails(Again) {
        status := Success;
      }
    }

    /** apr_brigade_partition and brigade_move: everything beyond the first n bytes
        goes to tmpbb. */
    method SetAside(n: nat)
      requires Valid() && b != [] && b[0].Bytes? && n <= |b[0].data|
      modifies this`b, this`tmp
      ensures b == if n == 0 then [] else [Bytes(old(b)[0].data[..n])]
      ensures SocketLast(b + tmp) && Ahead(b + tmp) == Ahead(old(b))
      ensures Sock in old(b) ==> Sock in tmp
    {
      var data := b[0].data;
      AheadHead(b);
      if n == 0 {
        tmp, b := b, [];
        assert [] + tmp == tmp;
      } else if n == |data| {
        tmp, b := b[1..], b[..1];
        assert data[..n] == data;
        assert b + tmp == old(b);
      } else {
        tmp, b := [Bytes(data[n..])] + b[1..], [Bytes(data[..n])];
        TakeDrop(data, n);
        AheadCons(Bytes(data[..n]), tmp);
        AheadCons(Bytes(data[n..]), old(b)[1..]);
        Assoc(data[..n], data[n..], Ahead(old(b)[1..]));
      }
    }

    /** Hand the first n bytes of the first bucket to the caller, for good or as a
        copy, and put the rest back. */
    method HandOver(speculative: bool, n: nat) returns (out: seq<Bucket>)
      requires Valid() && b != [] && b[0].Bytes? && n <= |b[0].data|
      modifies this`b, this`tmp, this`taken
      ensures Valid() && Content(out) == old(b)[0].data[..n]
      ensures taken == if speculative then old(taken) else old(taken) + Content(out)
      ensures speculative && n > 0 ==> b != [] && b[0] == Bytes(Content(out))
      ensures Sock in old(b) ==> Sock in b
      ensures Eos !in out
    {
      SetAside(n);
      out := [];
      if b != [] {
        out := [Mem(b[0].data)];
        FlattenOne(Data, out[0]);
      }
      GiveBack(b, tmp, taken);
      if !speculative {
        taken := taken + Ahead(b);
        b := [];
      }
      b, tmp := b + tmp, [];
    }

    /** Normalize, then read the first bucket. */
    method FirstReady() returns (status: Status)
      requires Valid()
      modifies this`b, this`step
      ensures Valid() && (status.Success? ==> b != [] && b[0].Bytes?)
      ensures old(b) != [] && old(b)[0].Bytes? && 0 < |old(b)[0].data| ==>
                status.Success? && step == old(step) && b[0] == old(b)[0]
      ensures status.EndOfFile? <==> Exhausted(old(b))
      ensures status.EndOfFile? ==> step == old(step)
      ensures Ahead(old(b)) != [] ==>
                status.Success? && step == old(step) && b[0].data != [] && b[0].data <= Ahead(old(b))
      ensures Ahead(old(b)) == [] && Sock in old(b) ==> step == old(step) + 1 && Got(inc(old(step)), status, b)
      ensures Flows(inc) && Sock in old(b) ==> status.Success? && Sock in b && b[0].data != []
      ensures status.Success? && b[0].data == [] ==>
                |b| == 1 && Ahead(old(b)) == [] && Sock in old(b) && AtEnd(inc(old(step)))
    {
      var eof := Prepare();
      if eof {
        return EndOfFile;
      }
      AheadHead(b);
      status := ReadFirst();
    }

    /** The end of the stream: an EOS bucket, unless this is a look ahead. */
    method AtEos(speculative: bool) returns (out: seq<Bucket>)
      requires Valid() && |b| == 1 && b[0] == Bytes([])
      modifies this`b
      ensures Valid() && b == [] && Ahead(b) == [] && taken == Stream(inc, step)
      ensures out == if speculative then [] else [Eos]
      ensures Content(out) == []
    {
      DropFirst();
      assert taken + [] == taken;
      out := [];
      if !speculative {
        out := [Eos];
        FlattenOne(Data, Eos);
      }
    }

    /** AP_MODE_READBYTES and AP_MODE_SPECULATIVE. */
    method ReadBytes(speculative: bool, block: ReadType, readbytes: nat) returns (status: Status, out: seq<Bucket>)
      requires Valid() && readbytes > 0
      modifies this
      ensures Valid()
      ensures |Content(out)| <= readbytes
      ensures taken == if speculative then old(taken) else old(taken) + Content(out)
      ensures speculative && Content(out) != [] ==> b != [] && b[0] == Bytes(Content(out))
      ensures old(b) != [] && old(b)[0].Bytes? && 0 < |old(b)[0].data| <= readbytes ==>
                status.Success? && step == old(step) && Content(out) == old(b)[0].data
      ensures status.EndOfFile? <==> Exhausted(old(b))
      ensures status.EndOfFile? ==> step == old(step)
      ensures Ahead(old(b)) != [] ==>
                status.Success? && step == old(step) && Content(out) != [] && Content(out) <= Ahead(old(b))
      ensures Ahead(old(b)) == [] && Sock in old(b) ==>
                step == old(step) + 1 && Answered(inc(old(step)), status, Content(out), readbytes)
      ensures Flows(inc) && Sock in old(b) ==> Sock in b && Content(out) != []
      ensures Eos in out <==>
                !speculative && block.Blocking? && Ahead(old(b)) == [] && Sock in old(b) && AtEnd(inc(old(step)))
      ensures Eos in out ==> out == [Eos] && status.Success? && taken == Stream(inc, step) && Exhausted(b)
    {
      out := [];
      assert taken + [] == taken;
      status := FirstReady();
      if !status.Success? {
        if status == Fails(Again) {
          status := Success;
        }
      } else if block.Blocking? && b[0].data == [] {
        out := AtEos(speculative);
      } else {
        var len := |b[0].data|;
        assert b[0].data[..len] == b[0].data;
        out := HandOver(speculative, if len < readbytes then len else readbytes);
      }
    }
  }

  lemma {:induction false} GiveBack(b: seq<InBucket>, tmp: seq<InBucket>, taken: seq<byte>)
    ensures Ahead(b + tmp) == Ahead(b) + Ahead(tmp)
    ensures taken + Ahead(b + tmp) == (taken + Ahead(b)) + Ahead(tmp)
    ensures |b| == 1 && b[0].Bytes? ==> Ahead(b) == b[0].data
    ensures [] + tmp == tmp
  {
    FlattenConcat(InBytes, b, tmp);
    Assoc(taken, Ahead(b), Ahead(tmp));
    if |b| == 1 {
      assert b == [b[0]];
      FlattenOne(InBytes, b[0]);
    }
  }

  /** At most one line feed, and that at the end. */
  predicate LineShape(s: seq<byte>) {
    forall i | 0 <= i < |s| - 1 :: s[i] != LF
  }

  predicate EndsLine(s: seq<byte>) {
    s != [] && s[|s| - 1] == LF
  }

  /** A line, or the beginning of one. */
  predicate Partial(s: seq<byte>, whole: bool) {
    if whole then LineShape(s) && EndsLine(s) else LF !in s
  }

  lemma {:induction false} PartialMore(s: seq<byte>, str: seq<byte>, whole: bool)
    requires Partial(s, false) && if whole then str != [] && str[|str| - 1] == LF && LF !in str[..|str| - 1]
                                  else LF !in str
    ensures Partial(s + str, whole)
  {
    if whole {
      forall i | 0 <= i < |s + str| - 1 ensures (s + str)[i] != LF {
        if i >= |s| { assert (s + str)[i] == str[..|str| - 1][i - |s|]; }
      }
    }
  }

  /** The position of the first line feed, or the length. */
  method Find(s: seq<byte>) returns (i: nat)
    ensures i <= |s| && LF !in s[..i] && (i < |s| ==> s[i] == LF)
  {
    i := 0;
    while i < |s| && s[i] != LF
      invariant i <= |s| && LF !in s[..i]
    {
      i := i + 1;
    }
  }

  /** Large buckets are moved, small ones copied behind what was collected. */
  function Collected(out: seq<Bucket>, str: seq<byte>): seq<Bucket> {
    if |str| > BUFF_SIZE / 4 then out + [Mem(str)] else if str != [] then BrigadeWrite(out, str) else out
  }

  lemma {:induction false} CollectedBytes(out: seq<Bucket>, str: seq<byte>)
    ensures Content(Collected(out, str)) == Content(out) + str
  {
    if |str| > BUFF_SIZE / 4 {
      FlattenAppend(Data, out, Mem(str));
    } else if str != [] {
      BrigadeWriteAppends(out, str);
    }
  }

  datatype Request = Line | Read(block: ReadType, n: nat) | Peek(block: ReadType, n: nat)

  /** What the answers gave out for good. */
  function Given(reqs: seq<Request>, replies: seq<seq<byte>>): seq<byte>
    requires |reqs| == |replies|
  {
    if reqs == [] then []
    else
      var n := |reqs| - 1;
      Given(reqs[..n], replies[..n]) + if reqs[n].Peek? then [] else replies[n]
  }

  lemma {:induction false} GivenMore(reqs: seq<Request>, replies: seq<seq<byte>>, i: nat, reply: seq<byte>)
    requires |replies| == i < |reqs|
    ensures Given(reqs[..i + 1], replies + [reply])
         == Given(reqs[..i], replies) + if reqs[i].Peek? then [] else reply
  {
    assert reqs[..i + 1][..i] == reqs[..i] && (replies + [reply])[..i] == replies;
  }

  /** The form of an answer. */
  predicate Suits(req: Request, reply: seq<byte>) {
    if req.Line? then LineShape(reply) else |reply| <= req.n
  }

  /** One request. */
  method Serve(f: Filter, req: Request) returns (reply: seq<byte>)
    requires f.Valid() && (!req.Line? ==> req.n > 0)
    modifies f
    ensures f.Valid() && Suits(req, reply)
    ensures f.taken == old(f.taken) + if req.Peek? then [] else reply
    ensures Flows(f.inc) && Sock in old(f.b) ==> Sock in f.b && reply != []
  {
    var status, out;
    match req {
      case Line => status, out := f.GetLine();
      case Read(block, n) => status, out := f.ReadBytes(false, block, n);
      case Peek(block, n) => status, out := f.ReadBytes(true, block, n);
    }
    reply := Content(out);
    assert old(f.taken) + [] == old(f.taken);
  }

  /** Any sequence of requests on a connection: what was given out for good and
      what is still read ahead are what the socket delivered, in order. While the
      peer goes on sending, no answer is empty. */
  method Converse(inc: Incoming, reqs: seq<Request>)
    returns (steps: nat, replies: seq<seq<byte>>, ahead: seq<byte>)
    requires forall r | r in reqs :: !r.Line? ==> r.n > 0
    ensures |replies| == |reqs| && forall i | 0 <= i < |reqs| :: Suits(reqs[i], replies[i])
    ensures Given(reqs, replies) + ahead == Stream(inc, steps)
    ensures Flows(inc) ==> [] !in replies
  {
    var f := new Filter(inc);
    replies := [];
    var i := 0;
    while i < |reqs|
      invariant 0 <= i <= |reqs| && fresh(f) && f.inc == inc && f.Valid() && |replies| == i
      invariant f.taken == Given(reqs[..i], replies)
      invariant forall k | 0 <= k < i :: Suits(reqs[k], replies[k])
      invariant Flows(inc) ==> Sock in f.b && [] !in replies
    {
      var reply := Serve(f, reqs[i]);
      GivenMore(reqs, replies, i, reply);
      replies := replies + [reply];
      i := i + 1;
    }
    assert reqs[..i] == reqs;
    steps, ahead := f.step, Ahead(f.b);
  }

  /** Looking ahead, if it shows anything, shows exactly what the same read then
      takes, without touching the socket in between. */
  method PeekThenRead(f: Filter, block: ReadType, n: nat) returns (seen: seq<byte>, read: seq<byte>)
    requires f.Valid() && n > 0
    modifies f
    ensures f.Valid() && |seen| <= n && f.taken == old(f.taken) + read
    ensures seen != [] ==> read == seen
  {
    var status, out := f.ReadBytes(true, block, n);
    seen := Content(out);
    status, out := f.ReadBytes(false, block, n);
    read := Content(out);
  }
}
