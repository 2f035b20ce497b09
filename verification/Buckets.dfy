/** Buckets and brigades as values: what a brigade spells, what reading or
    writing a bucket does to it, and a weight that reading never increases. */
module Buckets {
  import opened Basics
  import opened Flattening

  newtype byte = x: int | 0 <= x < 256

  const BLANK: byte := 32
  const TAB: byte := 9

  predicate IsBlank(b: byte) {
    b == BLANK || b == TAB
  }

  /** Size of a buffer allocated by the bucket library (APR_BUCKET_BUFF_SIZE). */
  const BUFF_SIZE: nat := 8000

  datatype ReadType = Blocking | Nonblocking

  /** One batch of pipe output; `ready` says whether a nonblocking read sees it. */
  datatype ChunkBase = Chunk(ready: bool, data: seq<byte>)
  type PipeChunk = c: ChunkBase | c.data != [] witness Chunk(true, [0])

  /** A range of an open file. */
  datatype FileRangeBase = FileRange(content: seq<byte>, offset: nat, length: nat)
  type FileRange = f: FileRangeBase | f.offset + f.length <= |f.content| witness FileRange([], 0, 0)

  datatype Bucket =
    | Mem(data: seq<byte>)                                 // transient, immortal, mmap, pool
    | Heap(data: seq<byte>, alloc: nat)                    // data in a buffer of alloc bytes
    | File(range: FileRange, sendfile: bool)               // sendfile: APR_SENDFILE_ENABLED
    | Pipe(chunks: seq<PipeChunk>, eofReady: bool)
    | Flush | Eos | Eoc
    | Meta                                                 // any other metadata bucket

  function FileBytes(f: FileRange): seq<byte> {
    f.content[f.offset..f.offset + f.length]
  }

  function ChunkData(c: PipeChunk): seq<byte> {
    c.data
  }

  /** The bytes a bucket stands for. */
  function Data(b: Bucket): seq<byte> {
    match b
    case Mem(d) => d
    case Heap(d, _) => d
    case File(f, _) => FileBytes(f)
    case Pipe(cs, _) => Flatten(ChunkData, cs)
    case _ => []
  }

  /** The bytes a brigade stands for. */
  function Content(bs: seq<Bucket>): seq<byte> {
    Flatten(Data, bs)
  }

  lemma {:induction false} ContentHead(bs: seq<Bucket>)
    requires bs != []
    ensures Content(bs) == Data(bs[0]) + Content(bs[1..])
  {}

  predicate InMemory(b: Bucket) {
    b.Mem? || b.Heap? || b.Meta?
  }

  /** Flush, end of stream and end of connection. */
  predicate IsMark(b: Bucket) {
    b.Flush? || b.Eos? || b.Eoc?
  }

  /** apr_bucket_read: the buckets that replace b, the first of them in memory;
      None is EAGAIN. */
  function ReadBucket(b: Bucket, block: ReadType): (r: Option<seq<Bucket>>)
    ensures b.Pipe? && block.Nonblocking? && !Ready(b) <==> r.None?
  {
    match b
    case File(f, s) =>
      var k := if f.length > BUFF_SIZE then BUFF_SIZE else f.length;
      var head := Heap(f.content[f.offset..f.offset + k], k);
      if k == f.length then Some([head])
      else Some([head, File(FileRange(f.content, f.offset + k, f.length - k), s)])
    case Pipe(cs, eof) =>
      if block.Nonblocking? && !Ready(b) then None
      else if cs == [] then Some([Mem([])])
      else Some([Heap(cs[0].data, BUFF_SIZE), Pipe(cs[1..], eof)])
    case _ => Some([b])
  }

  predicate Ready(b: Bucket)
    requires b.Pipe?
  {
    if b.chunks == [] then b.eofReady else b.chunks[0].ready
  }

  /** How much reading a bucket can still cause. */
  function Weight(b: Bucket): (w: nat)
    ensures w >= 1
  {
    match b
    case File(f, _) => 1 + f.length
    case Pipe(cs, _) => 2 + 2 * |cs|
    case _ => 1
  }

  function Work(bs: seq<Bucket>): nat {
    Sum(Weight, bs)
  }

  lemma {:induction false} PairContent(a: Bucket, b: Bucket)
    ensures Content([a, b]) == Data(a) + Data(b) && Work([a, b]) == Weight(a) + Weight(b)
  {
    assert [a, b] == [a] + [b];
    FlattenAppend(Data, [a], b);
    FlattenOne(Data, a);
    SumConcat(Weight, [a], [b]);
    SumOne(Weight, a);
    SumOne(Weight, b);
  }

  /** Reading keeps the content, fixes the first bucket in memory and never
      adds work. */
  lemma {:induction false} ReadKeepsContent(b: Bucket, block: ReadType)
    requires ReadBucket(b, block).Some?
    ensures
      var r := ReadBucket(b, block).value;
      && 1 <= |r| <= 2
      && Content(r) == Data(b)
      && Work(r) <= Weight(b)
      && (!IsMark(b) ==> InMemory(r[0]) && !IsMark(r[|r| - 1]))
  {
    var r := ReadBucket(b, block).value;
    if |r| == 1 {
      FlattenOne(Data, r[0]);
      SumOne(Weight, r[0]);
      assert r == [r[0]];
    } else {
      PairContent(r[0], r[1]);
      assert r == [r[0], r[1]];
      if b.File? {
        Slices(b.range.content, b.range.offset, b.range.offset + BUFF_SIZE, b.range.offset + b.range.length);
      }
    }
  }

  lemma {:induction false} WorkHead(bs: seq<Bucket>)
    requires bs != []
    ensures Work(bs) == Weight(bs[0]) + Work(bs[1..])
  {}

  /** Moving a bucket from one brigade to the end of another. */
  lemma {:induction false} MoveOne(front: seq<Bucket>, rest: seq<Bucket>)
    requires rest != []
    ensures Content(front + [rest[0]]) == Content(front) + Data(rest[0])
    ensures Content(front + [rest[0]]) + Content(rest[1..]) == Content(front) + Content(rest)
    ensures Work(rest[1..]) < Work(rest)
  {
    FlattenAppend(Data, front, rest[0]);
    ContentHead(rest);
    Assoc(Content(front), Data(rest[0]), Content(rest[1..]));
    WorkHead(rest);
  }

  /** Reading the first bucket of a brigade in place. */
  lemma {:induction false} ReadInPlace(rest: seq<Bucket>, block: ReadType)
    requires rest != [] && ReadBucket(rest[0], block).Some?
    ensures
      var r := ReadBucket(rest[0], block).value;
      Content(r + rest[1..]) == Content(rest) && Work(r + rest[1..]) <= Work(rest)
  {
    ReadKeepsContent(rest[0], block);
    var r := ReadBucket(rest[0], block).value;
    ContentHead(rest);
    FlattenConcat(Data, r, rest[1..]);
    SumConcat(Weight, r, rest[1..]);
    WorkHead(rest);
  }

  /** apr_brigade_write without a flush function: append to the last heap
      buffer when the bytes fit, otherwise start a new bucket. */
  function BrigadeWrite(b: seq<Bucket>, s: seq<byte>): (r: seq<Bucket>) {
    if b != [] && b[|b| - 1].Heap? then
      var h := b[|b| - 1];
      if |s| > h.alloc - |h.data| then b + [Heap(s, |s|)]
      else b[..|b| - 1] + [Heap(h.data + s, h.alloc)]
    else if |s| > BUFF_SIZE then b + [Heap(s, |s|)]
    else b + [Heap(s, BUFF_SIZE)]
  }

  lemma {:induction false} BrigadeWriteAppends(b: seq<Bucket>, s: seq<byte>)
    ensures Content(BrigadeWrite(b, s)) == Content(b) + s
  {
    if b != [] && b[|b| - 1].Heap? && |s| <= b[|b| - 1].alloc - |b[|b| - 1].data| {
      var h := b[|b| - 1];
      assert b == b[..|b| - 1] + [h];
      FlattenAppend(Data, b[..|b| - 1], h);
      FlattenAppend(Data, b[..|b| - 1], Heap(h.data + s, h.alloc));
      Assoc(Content(b[..|b| - 1]), h.data, s);
    } else {
      FlattenAppend(Data, b, BrigadeWrite(b, s)[|b|]);
    }
  }
}
