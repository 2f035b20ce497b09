/** Reading the header of a request (server/protocol.c). */
module HeaderParser {
  import opened Buckets
  import opened HeaderText
  import opened HeaderSpec

  /** What memory holds: a text, its NUL, and room for `room` bytes. */
  ghost predicate Holds(a: array<byte>, len: nat, room: nat, text: Text)
    reads a
  {
    && |text| == len < a.Length && room <= a.Length && a[len] == NUL
    && forall i | 0 <= i < len :: a[i] == text[i]
  }

  method CopyLine(text: Text) returns (a: array<byte>)
    ensures fresh(a) && a.Length == |text| + 1 && Holds(a, |text|, 0, text)
  {
    a := new byte[|text| + 1];
    for i := 0 to |text|
      invariant forall j | 0 <= j < i :: a[j] == text[j]
    {
      a[i] := text[i];
    }
    a[|text|] := NUL;
  }

  /** memcpy of n bytes to offset `at`. */
  method CopyBytes(to: array<byte>, at: nat, from: array<byte>, n: nat)
    requires to != from && at + n <= to.Length && n <= from.Length
    modifies to
    ensures to[..at] == old(to[..at]) && to[at..at + n] == from[..n]
  {
    for i := 0 to n
      invariant to[..at] == old(to[..at])
      invariant forall j | 0 <= j < i :: to[at + j] == from[j]
    {
      to[at + i] := from[i];
    }
  }

  lemma {:induction false} HoldsBoth(a: array<byte>, n: nat, len: nat, room: nat, text: Text, line: Text)
    requires |text| == n && |line| == len && n + len < a.Length && room <= a.Length
    requires a[..n] == text && a[n..n + len + 1] == line + [NUL]
    ensures Holds(a, n + len, room, text + line)
  {
    assert a[n..n + len + 1][len] == a[n + len];
    assert a[..n + len] == a[..n] + a[n..n + len + 1][..len];
  }

  /** Appends a continuation line to the field. */
  method AppendFold(last: array<byte>, lastLen: nat, allocLen: nat, field: array<byte>, len: nat,
                    ghost text: Text, ghost line: Text)
    returns (buffer: array<byte>, room: nat)
    requires last != field && Holds(last, lastLen, allocLen, text) && Holds(field, len, 0, line)
    modifies last
    ensures if lastLen + len + 1 <= allocLen then buffer == last && room == allocLen
            else fresh(buffer) && room >= 2 * allocLen
    ensures Holds(buffer, lastLen + len, room, text + line)
  {
    var foldLen := lastLen + len + 1;
    buffer, room := last, allocLen;
    if foldLen > room {
      room := room + room;
      if foldLen > room {
        room := foldLen;
      }
      buffer := new byte[room];
      CopyBytes(buffer, 0, last, lastLen);
    }
    CopyBytes(buffer, lastLen, field, len + 1);
    assert field[..len + 1] == line + [NUL];
    HoldsBoth(buffer, lastLen, len, room, text, line);
  }

  /** strchr: the index of the first colon of the C string, or of its NUL. */
  method FindColon(a: array<byte>, len: nat, ghost text: Text) returns (v: nat)
    requires Holds(a, len, 0, text)
    ensures v <= len
    ensures a[v] == COLON <==> ColonAt(text) != -1
    ensures a[v] == COLON ==> v == ColonAt(text) && v < len
  {
    v := 0;
    while a[v] != COLON && a[v] != NUL
      invariant v <= len && ColonAt(text) == ColonFrom(text, v)
      decreases len - v
    {
      assert a[v] == text[v];
      v := v + 1;
    }
    assert v < len ==> a[v] == text[v];
  }

  lemma {:induction false} TrimUnique(s: Text, n: nat)
    requires n <= |s| && (s != [] ==> n >= 1) && (n > 1 ==> !IsBlank(s[n - 1]))
    requires forall i | n <= i < |s| :: IsBlank(s[i])
    ensures TrimEnd(s) == s[..n]
  {
    var r := InkTo(s, |s|);
    assert r == n;
  }

  /** Overwrites trailing blanks of a[lo..hi] with NUL, leaving the first byte;
      n bytes are kept. */
  method TrimBack(a: array<byte>, lo: nat, hi: nat, ghost was: Text) returns (ghost n: nat)
    requires lo <= hi <= a.Length && |was| == hi - lo
    requires forall k | lo <= k < hi :: a[k] == was[k - lo]
    modifies a
    ensures n <= hi - lo && was[..n] == TrimEnd(was)
    ensures forall k | 0 <= k < lo + n :: a[k] == old(a[k])
    ensures forall k | hi <= k < a.Length :: a[k] == old(a[k])
    ensures forall k | lo + n <= k < hi :: a[k] == NUL
  {
    var t: int := hi - 1;
    while t > lo && IsBlank(a[t])
      invariant lo - 1 <= t < hi && (t < lo ==> lo == hi)
      invariant forall k | 0 <= k <= t :: a[k] == old(a[k])
      invariant forall k | hi <= k < a.Length :: a[k] == old(a[k])
      invariant forall k | t < k < hi :: a[k] == NUL
      invariant forall k | t + 1 - lo <= k < |was| :: IsBlank(was[k])
    {
      a[t] := NUL;
      t := t - 1;
    }
    n := t + 1 - lo;
    TrimUnique(was, n);
  }

  /** The C string at `at`, where what is kept is followed by a NUL. */
  lemma {:induction false} CStrAt(a: array<byte>, at: nat, kept: Text)
    requires at + |kept| < a.Length && a[at + |kept|] == NUL
    requires forall k | 0 <= k < |kept| :: a[at + k] == kept[k]
    ensures CStr(a[at..]) == CStr(kept)
  {
    var rest := a[at + |kept|..];
    assert a[at..] == kept + rest && rest[0] == NUL;
    CStrStop(kept, rest);
  }

  lemma {:induction false} SkipUnique(s: Text, n: nat)
    requires n <= |s| && (n < |s| ==> !IsBlank(s[n]))
    requires forall i | 0 <= i < n :: IsBlank(s[i])
    ensures SkipBlanks(s) == s[n..]
  {
    var r := InkFrom(s, 0);
    assert r == n;
  }

  /** Skips the blanks in front of the value. */
  method FindValue(a: array<byte>, v: nat, len: nat, ghost text: Text) returns (value: nat)
    requires v < len == |text| && len < a.Length && a[len] == NUL
    requires forall k | v < k < len :: a[k] == text[k]
    ensures v < value <= len && text[value..] == SkipBlanks(text[v + 1..])
  {
    value := v + 1;
    while IsBlank(a[value])
      invariant v < value <= len
      invariant forall k | v < k < value :: IsBlank(text[k])
      decreases len - value
    {
      value := value + 1;
    }
    SkipUnique(text[v + 1..], value - v - 1);
    assert text[v + 1..][value - v - 1..] == text[value..];
  }

  /** The two C strings of a split field. */
  ghost predicate Shows(a: array<byte>, value: nat, pair: Pair)
    reads a
  {
    value <= a.Length && CStr(a[0..]) == pair.name && CStr(a[value..]) == pair.value
  }

  lemma {:induction false} NameShown(a: array<byte>, n: nat, name: Text)
    requires n <= |name| && n < a.Length && a[n] == NUL && NUL !in name
    requires forall k | 0 <= k < n :: a[k] == name[k]
    ensures CStr(a[0..]) == name[..n]
  {
    Absent(name, name[..n], name[n..]);
    CStrAt(a, 0, name[..n]);
    CStrWhole(name[..n]);
  }

  /** Strips both ends and puts the NULs in. */
  method Terminate(a: array<byte>, v: nat, value: nat, len: nat, ghost name: Text, ghost rest: Text)
    requires v < value <= len < a.Length && a[v] == NUL && a[len] == NUL
    requires |name| == v && |rest| == len - value && NUL !in name
    requires forall k | 0 <= k < v :: a[k] == name[k]
    requires forall k | value <= k < len :: a[k] == rest[k - value]
    modifies a
    ensures Shows(a, value, Pair(TrimEnd(name), CStr(TrimEnd(rest))))
  {
    ghost var n := TrimBack(a, 0, v, name);
    ghost var m := TrimBack(a, value, len, rest);
    NameShown(a, n, name);
    CStrAt(a, value, rest[..m]);
  }

  /** Splits the field in place: the name and the value become C strings. */
  method SplitField(a: array<byte>, len: nat, ghost text: Text) returns (found: bool, value: nat)
    requires Holds(a, len, 0, text)
    modifies a
    ensures found <==> Split(text).Some?
    ensures found ==> Shows(a, value, Split(text).value)
  {
    var v := FindColon(a, len, text);
    if a[v] != COLON {
      return false, 0;
    }
    assert forall k | 0 <= k < len :: a[k] == a[..len][k];
    a[v] := NUL;
    value := FindValue(a, v, len, text);
    Terminate(a, v, value, len, text[..v], text[value..]);
    found := true;
  }

  /** A table entry: its name starts the buffer, its value is at an offset. */
  datatype Entry = Entry(buffer: array<byte>, value: nat)

  ghost predicate Stored(table: seq<Entry>, pairs: seq<Pair>)
    reads set e | e in table :: e.buffer
  {
    |table| == |pairs| && forall i | 0 <= i < |table| :: Shows(table[i].buffer, table[i].value, pairs[i])
  }

  predicate Apart(table: seq<Entry>, last: array<byte>) {
    forall i | 0 <= i < |table| :: table[i].buffer != last
  }

  lemma {:induction false} StoredMore(table: seq<Entry>, pairs: seq<Pair>, e: Entry, pair: Pair)
    requires Stored(table, pairs) && Shows(e.buffer, e.value, pair)
    ensures Stored(table + [e], pairs + [pair])
  {
    var more := pairs + [pair];
    forall i | 0 <= i < |table + [e]|
      ensures Shows((table + [e])[i].buffer, (table + [e])[i].value, more[i])
    {
      if i < |table| {
        assert Shows(table[i].buffer, table[i].value, pairs[i]);
      }
    }
  }

  /** Splits the field that has been completed and adds it to the table. */
  method AddField(last: array<byte>, lastLen: nat, table: seq<Entry>, ghost pairs: seq<Pair>, ghost text: Text)
    returns (found: bool, value: nat)
    requires Holds(last, lastLen, 0, text)
    requires Apart(table, last) && Stored(table, pairs)
    modifies last
    ensures found <==> Split(text).Some?
    ensures found ==> Stored(table + [Entry(last, value)], pairs + [Split(text).value])
  {
    found, value := SplitField(last, lastLen, text);
    if found {
      forall i | 0 <= i < |table| ensures Shows(table[i].buffer, table[i].value, pairs[i]) {
        assert table[i].buffer != last;
        assert old(Shows(table[i].buffer, table[i].value, pairs[i]));
      }
      StoredMore(table, pairs, Entry(last, value), Split(text).value);
    }
  }

  /** A continuation line. */
  method Fold(last: array<byte>, lastLen: nat, allocLen: nat, field: array<byte>, len: nat,
              table: seq<Entry>, ghost pairs: seq<Pair>, ghost text: Text, ghost line: Text)
    returns (buffer: array<byte>, room: nat)
    requires Holds(last, lastLen, allocLen, text) && last != field && Holds(field, len, 0, line)
    requires Apart(table, last) && Stored(table, pairs)
    modifies last
    ensures if lastLen + len + 1 <= allocLen then buffer == last && room == allocLen
            else fresh(buffer) && room >= 2 * allocLen
    ensures Holds(buffer, lastLen + len, room, text + line)
    ensures Apart(table, buffer) && Stored(table, pairs)
  {
    buffer, room := AppendFold(last, lastLen, allocLen, field, len, text, line);
    forall i | 0 <= i < |table| ensures Shows(table[i].buffer, table[i].value, pairs[i]) {
      assert table[i].buffer != last;
      assert old(Shows(table[i].buffer, table[i].value, pairs[i]));
    }
  }

  /** A line that is not a continuation: the field before it is complete. */
  method Finish(last: array<byte>, lastLen: nat, fieldsRead: nat, table: seq<Entry>,
                limitFields: nat, ghost pairs: seq<Pair>, ghost text: Text)
    returns (ok: bool, count: nat, after: seq<Entry>)
    requires Holds(last, lastLen, 0, text)
    requires Apart(table, last) && Stored(table, pairs)
    requires fieldsRead == if limitFields == 0 then 0 else |table|
    modifies last
    ensures ok <==> (limitFields == 0 || |table| < limitFields) && Split(text).Some?
    ensures ok ==> Stored(after, pairs + [Split(text).value])
    ensures ok ==> count == if limitFields == 0 then 0 else |after|
    ensures |after| == |table| + 1 && after[..|table|] == table && after[|table|].buffer == last
  {
    count := fieldsRead;
    after := table + [Entry(last, 0)];
    if limitFields != 0 {
      count := count + 1;
      if count > limitFields {
        return false, count, after;
      }
    }
    var value;
    ok, value := AddField(last, lastLen, table, pairs, text);
    after := table + [Entry(last, value)];
  }

  /** Deals with a line after the first. */
  method Take(last: array<byte>, lastLen: nat, allocLen: nat, fieldsRead: nat, table: seq<Entry>, line: Text,
              limitFields: nat, limitSize: nat, ghost pairs: seq<Pair>, ghost text: Text)
    returns (ok: bool, buffer: array<byte>, len: nat, room: nat, count: nat, after: seq<Entry>)
    requires Holds(last, lastLen, allocLen, text)
    requires Apart(table, last) && Stored(table, pairs)
    requires fieldsRead == if limitFields == 0 then 0 else |table|
    modifies last
    ensures Continues(line) ==>
      && (ok <==> |text| + |line| + 1 < limitSize)
      && (ok ==> Holds(buffer, len, room, text + line) && after == table && Stored(after, pairs))
    ensures !Continues(line) ==>
      && (ok <==> (limitFields == 0 || |table| < limitFields) && Split(text).Some?)
      && (ok ==> Holds(buffer, len, room, line) && Stored(after, pairs + [Split(text).value]))
    ensures Apart(after, buffer)
    ensures ok ==> count == if limitFields == 0 then 0 else |after|
    ensures buffer == last || fresh(buffer)
    ensures forall i | 0 <= i < |after| :: after[i].buffer == last || after[i] in table
  {
    buffer, len, room, count, after := last, lastLen, allocLen, fieldsRead, table;
    var field := CopyLine(line);
    if |line| > 0 && IsBlank(field[0]) {
      ok := lastLen + |line| + 1 < limitSize;
      if ok {
        buffer, room := Fold(last, lastLen, allocLen, field, |line|, table, pairs, text, line);
        len := lastLen + |line|;
      }
    } else {
      ok, count, after := Finish(last, lastLen, fieldsRead, table, limitFields, pairs, text);
      room := 0;
      buffer, len := field, |line|;
    }
  }

  /** What line i after the first does: it is refused, it ends the header, or
      it leads on to more fields. */
  lemma {:induction false} Judge(calls: seq<Read>, i: nat, fields: seq<Field>, pairs: seq<Pair>,
          limitFields: nat, limitSize: nat)
    returns (ok: bool, more: seq<Field>, done: seq<Pair>)
    requires Progress(Split, calls, i, fields, pairs, limitFields, limitSize) && 0 < i < |calls| && calls[i].Line?
    ensures Continues(calls[i].text) ==>
      ok == (|fields[|pairs|].text| + |calls[i].text| + 1 < limitSize) && done == pairs
    ensures !Continues(calls[i].text) ==>
      ok == ((limitFields == 0 || |pairs| < limitFields) && Split(fields[|pairs|].text).Some?)
    ensures !Continues(calls[i].text) && ok ==> done == pairs + [Split(fields[|pairs|].text).value]
    ensures !ok ==> Verdict(Split, calls, limitFields, limitSize) == BadRequest
    ensures ok && calls[i].text == [] ==>
      var all := Unfold(Header(calls));
      && Verdict(Split, calls, limitFields, limitSize) == Accepted
      && Splits(Split, all) && Pairs(Split, all) == done
    ensures ok && calls[i].text != [] ==>
      && Progress(Split, calls, i + 1, more, done, limitFields, limitSize)
      && more[|done|].text == if Continues(calls[i].text) then fields[|pairs|].text + calls[i].text else calls[i].text
  {
    var line, last := calls[i].text, fields[|pairs|].text;
    more, done := Extend(fields, line), pairs;
    if Continues(line) {
      ok := |last| + |line| + 1 < limitSize;
      Continued(Split, calls, i, fields, pairs, limitFields, limitSize);
    } else {
      ok := (limitFields == 0 || |pairs| < limitFields) && Split(last).Some?;
      if ok {
        done := pairs + [Split(last).value];
      }
      if line == [] {
        LastField(Split, calls, i, fields, pairs, limitFields, limitSize);
      } else {
        NextField(Split, calls, i, fields, pairs, limitFields, limitSize);
      }
    }
  }

  /** Reads and splits header fields until the empty line. */
  method GetMimeHeaders(calls: seq<Read>, limitFields: nat, limitSize: nat) returns (status: Status, table: seq<Entry>)
    ensures status == Verdict(Split, calls, limitFields, limitSize)
    ensures status.Accepted? ==>
      var fields := Unfold(Header(calls));
      Splits(Split, fields) && Stored(table, Pairs(Split, fields))
  {
    table := [];
    ghost var fields: seq<Field>, pairs: seq<Pair> := [], [];
    Start(Split, calls, limitFields, limitSize);
    if calls == [] || calls[0].Failed? {
      ReadFailed(Split, calls, 0, fields, pairs, limitFields, limitSize);
      return if calls != [] && calls[0].timeUp then RequestTimeOut else BadRequest, table;
    }
    First(Split, calls, limitFields, limitSize);
    if calls[0].text == [] {
      return Accepted, table;
    }
    var last := CopyLine(calls[0].text);
    var lastLen: nat, allocLen: nat, fieldsRead: nat, i := |calls[0].text|, 0, 0, 1;
    fields := [Field(calls[0].text, false)];
    while true
      invariant 0 < i && Progress(Split, calls, i, fields, pairs, limitFields, limitSize)
      invariant fresh(last) && Holds(last, lastLen, allocLen, fields[|pairs|].text)
      invariant Apart(table, last) && Stored(table, pairs)
      invariant fieldsRead == if limitFields == 0 then 0 else |table|
      invariant forall k | 0 <= k < |table| :: fresh(table[k].buffer)
      decreases |calls| - i
    {
      if i == |calls| || calls[i].Failed? {
        ReadFailed(Split, calls, i, fields, pairs, limitFields, limitSize);
        return if i < |calls| && calls[i].timeUp then RequestTimeOut else BadRequest, table;
      }
      ghost var go, more, done := Judge(calls, i, fields, pairs, limitFields, limitSize);
      var ok;
      ok, last, lastLen, allocLen, fieldsRead, table :=
        Take(last, lastLen, allocLen, fieldsRead, table, calls[i].text, limitFields, limitSize, pairs,
          fields[|pairs|].text);
      if !ok {
        return BadRequest, table;
      }
      if calls[i].text == [] {
        return Accepted, table;
      }
      fields, pairs, i := more, done, i + 1;
    }
  }
}
