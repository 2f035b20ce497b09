/** ap_rgetline_core on its buffer: the caller's, or one it grows itself. */
module LineBuffer {
  import opened Flattening
  import opened Buckets
  import opened LineReader

  /** The input filters behind r->input_filters. */
  class Source {
    var rest: seq<Event>

    constructor (events: seq<Event>)
      ensures rest == events
    {
      rest := events;
    }

    method GetLine() returns (e: Event)
      modifies this
      ensures old(rest) == [] ==> e == Error(EOF) && rest == []
      ensures old(rest) != [] ==> e == old(rest)[0] && rest == old(rest)[1..]
    {
      if rest == [] {
        e := Error(EOF);
      } else {
        e, rest := rest[0], rest[1..];
      }
    }
  }

  /** The buffer holds acc from position base on. */
  ghost predicate Holds(s: array?<byte>, base: nat, acc: seq<byte>)
    reads s
  {
    acc == [] || (s != null && base + |acc| <= s.Length && s[base..base + |acc|] == acc)
  }

  /** A caller's buffer has room for n bytes; one of our own exists once it holds
      something. */
  ghost predicate Room(s: array?<byte>, own: bool, base: nat, n: nat, acc: seq<byte>)
    reads s
  {
    && Holds(s, base, acc)
    && (if own then base == 0 && (s == null <==> acc == []) else s != null && base + n <= s.Length)
  }

  /** A buffer of our own with room for `need` bytes, keeping the first handled. */
  method Grow(s0: array?<byte>, handled: nat, len: nat, ghost acc: seq<byte>) returns (s: array<byte>)
    requires Room(s0, true, 0, 0, acc) && handled == |acc| && len > 0
    ensures handled + len <= s.Length && s[..handled] == acc
    ensures s0 != null ==> (s == s0 <==> handled + len <= s0.Length)
    ensures s != s0 ==> fresh(s) && (s0 == null ==> s.Length >= MIN_LINE_ALLOC)
    ensures s0 != null && s != s0 ==> s.Length >= 2 * s0.Length
  {
    if s0 == null {
      s := new byte[if len < MIN_LINE_ALLOC then MIN_LINE_ALLOC else len](_ => 0);
    } else if handled + len > s0.Length {
      var newSize := s0.Length * 2;
      if handled + len > newSize {
        newSize := (handled + len) * 2;
      }
      s := new byte[newSize](_ => 0);
      forall i | 0 <= i < handled { s[i] := s0[i]; }
    } else {
      s := s0;
    }
  }

  /** memcpy of str to position at. */
  method Copy(s: array<byte>, at: nat, str: seq<byte>)
    requires at + |str| <= s.Length
    modifies s
    ensures s[..][..at] == old(s[..])[..at] && s[..][at..at + |str|] == str
  {
    forall i | 0 <= i < |str| { s[at + i] := str[i]; }
  }

  /** Add str to the buffer, growing one of our own if need be. */
  method Append(s0: array?<byte>, own: bool, base: nat, handled: nat, str: seq<byte>, n: nat, ghost acc: seq<byte>)
    returns (s: array<byte>)
    requires Room(s0, own, base, n, acc) && handled == |acc| && str != [] && handled + |str| <= n
    modifies s0
    ensures Room(s, own, base, n, acc + str)
    ensures if own then s == s0 || fresh(s) else s == s0 && s[..base] == old(s0[..base])
  {
    if own {
      s := Grow(s0, handled, |str|, acc);
    } else {
      s := s0;
    }
    ghost var before := s[..];
    assert before[base..base + handled] == acc;
    Copy(s, base + handled, str);
    Pasted(before, s[..], base, base + handled, str);
  }

  lemma {:induction false} Pasted(before: seq<byte>, after: seq<byte>, base: nat, at: nat, str: seq<byte>)
    requires base <= at && at + |str| <= |before| == |after|
    requires after[..at] == before[..at] && after[at..at + |str|] == str
    ensures after[..base] == before[..base] && after[base..at + |str|] == before[base..at] + str
  {
    assert after[..base] == after[..at][..base] && before[..base] == before[..at][..base];
    assert after[base..at] == after[..at][base..] && before[base..at] == before[..at][base..];
    Slices(after, base, at, at + |str|);
  }

  /** The buffer is the caller's own all along, and untouched before base; or it
      was made here. */
  twostate predicate Kept(s0: array?<byte>, new s: array?<byte>, own: bool, base: nat)
    requires !own ==> s0 != null && base <= s0.Length
    reads s
  {
    if own then s == s0 || (s != null && fresh(s)) else s == s0 && s[..base] == old(s0[..base])
  }

  /** The bucket loop over one brigade. */
  method FillBuffer(pieces: seq<Piece>, s0: array?<byte>, own: bool, base: nat, n: nat, ghost acc0: seq<byte>,
                    handled0: nat)
    returns (s: array?<byte>, handled: nat, sawEos: bool, overflow: bool)
    requires Room(s0, own, base, n, acc0) && handled0 == |acc0| <= n
    modifies s0
    ensures
      var r := Fill(pieces, acc0, n);
      && overflow == r.Overflow? && handled == |r.acc| && Room(s, own, base, n, r.acc)
      && (r.Fits? ==> sawEos == r.sawEos)
    ensures Kept(s0, s, own, base)
  {
    s, handled, sawEos, overflow := s0, handled0, false, false;
    ghost var acc := acc0;
    var i := 0;
    while i < |pieces|
      invariant 0 <= i <= |pieces| && handled == |acc| <= n && Room(s, own, base, n, acc)
      invariant Kept(s0, s, own, base)
      invariant !sawEos && !overflow && Fill(pieces[i..], acc, n) == Fill(pieces, acc0, n)
    {
      assert pieces[i..][1..] == pieces[i + 1..];
      if pieces[i].EosMark? {
        sawEos := true;
        return;
      }
      var str := pieces[i].data;
      if str != [] {
        if n < handled + |str| {
          overflow := true;
          return;
        }
        s := Append(s, own, base, handled, str, n, acc);
        handled := handled + |str|;
        acc := acc + str;
      } else {
        assert acc + str == acc;
      }
      i := i + 1;
    }
  }

  datatype Status = More | Done | NoRoom | Failure(code: int)

  /** A terminated string from position base on. */
  ghost predicate Terminated(s: array?<byte>, base: nat, text: seq<byte>)
    reads s
  {
    s != null && base + |text| < s.Length && s[base..base + |text|] == text && s[base + |text|] == 0
  }

  /** What did not fit is terminated all the same, at the cost of its last byte. */
  ghost predicate CutOff(s: array<byte>, base: nat, read: nat)
    reads s
  {
    var last := base + if read > 0 then read - 1 else 0;
    last < s.Length && s[last] == 0
  }

  /** Cut the line end off and terminate the string. */
  method Terminate(s: array<byte>, base: nat, handled: nat, ghost text: seq<byte>) returns (read: nat)
    requires Holds(s, base, text) && EndsInLF(text) && handled == |text|
    modifies s
    ensures read == |Strip(text)| && Terminated(s, base, Strip(text)) && s[..base] == old(s[..base])
    ensures read == |text| - if |text| > 1 && text[|text| - 2] == CR then 2 else 1
  {
    var last := base + handled - 1;
    assert forall i | 0 <= i < |text| :: s[base + i] == text[i] by {
      forall i | 0 <= i < |text| ensures s[base + i] == text[i] { assert s[base..base + |text|][i] == text[i]; }
    }
    if last > base && s[last - 1] == CR {
      last := last - 1;
    }
    s[last] := 0;
    read := last - base;
  }

  /** One round of the reading loop: a brigade into the buffer. */
  method Round(src: Source, s0: array?<byte>, own: bool, base: nat, n: nat, handled0: nat, sawEos0: bool,
               ghost acc0: seq<byte>)
    returns (status: Status, s: array?<byte>, handled: nat, sawEos: bool, ghost acc: seq<byte>)
    requires Room(s0, own, base, n, acc0) && handled0 == |acc0| <= n
    modifies src, s0
    ensures handled == |acc| <= n && Room(s, own, base, n, acc)
    ensures Kept(s0, s, own, base)
    ensures
      var r := Gather(old(src.rest), acc0, sawEos0, n);
      match status
      case More => r == Gather(src.rest, acc, sawEos, n) && |src.rest| < |old(src.rest)|
      case Done => r == Line(acc, sawEos, src.rest)
      case NoRoom => r == NoSpace(handled)
      case Failure(code) => r == Failed(code)
  {
    s, handled, sawEos, acc := s0, handled0, sawEos0, acc0;
    var e := src.GetLine();
    if e.Error? {
      status := Failure(e.code);
    } else if e.pieces == [] {
      status := Failure(EGENERAL);
    } else {
      var eos, overflow;
      s, handled, eos, overflow := FillBuffer(e.pieces, s, own, base, n, acc, handled);
      acc := Fill(e.pieces, acc, n).acc;
      if overflow {
        status := NoRoom;
      } else {
        sawEos := sawEos || eos;
        assert handled > 0 ==> s[base + handled - 1] == s[base..base + |acc|][handled - 1];
        status := if handled > 0 && s[base + handled - 1] == LF then Done else More;
      }
    }
  }

  /** ap_rgetline_core without folding. */
  method ReadLine(src: Source, s0: array?<byte>, own: bool, base: nat, n: nat)
    returns (status: Status, s: array?<byte>, read: nat, sawEos: bool)
    requires if own then s0 == null && base == 0 else s0 != null && base + n <= s0.Length && n > 0
    modifies src, s0
    ensures
      match Gather(old(src.rest), [], false, n)
      case Line(text, eos, rest) =>
        status.Done? && src.rest == rest && sawEos == eos && read == |Strip(text)| < n
          && Terminated(s, base, Strip(text))
      case NoSpace(handled) => status.NoRoom? && read == handled && (own ==> (s == null <==> read == 0))
        && (s != null ==> CutOff(s, base, read))
      case Failed(code) => status == Failure(code)
    ensures Kept(s0, s, own, base)
  {
    s, read, sawEos, status := s0, 0, false, More;
    if s != null {
      s[base] := 0;
    }
    ghost var acc: seq<byte>, res := [], Gather(src.rest, [], false, n);
    while status.More?
      invariant read == |acc| <= n && Room(s, own, base, n, acc) && Kept(s0, s, own, base)
      invariant status.More? ==> res == Gather(src.rest, acc, sawEos, n)
      invariant status.Done? ==> res == Line(acc, sawEos, src.rest)
      invariant status.NoRoom? ==> res == NoSpace(read)
      invariant status.Failure? ==> res == Failed(status.code)
      decreases status.More?, |src.rest|
    {
      status, s, read, sawEos, acc := Round(src, s, own, base, n, read, sawEos, acc);
    }
    if status.Done? {
      read := Terminate(s, base, read, acc);
    } else if status.NoRoom? && s != null {
      s[base + (if read > 0 then read - 1 else 0)] := 0;
    }
  }

  /** Join the line and its continuation in a new buffer, with a byte for the NUL. */
  method Join(s: array<byte>, handled: nat, tmp: array<byte>, nextLen: nat, ghost line: seq<byte>,
              ghost next: seq<byte>)
    returns (r: array<byte>)
    requires Terminated(s, 0, line) && handled == |line| && Terminated(tmp, 0, next) && nextLen == |next|
    ensures fresh(r) && Terminated(r, 0, line + next)
  {
    r := new byte[handled + nextLen + 1](_ => 0);
    Copy(r, 0, s[..handled]);
    ghost var before := r[..];
    Copy(r, handled, tmp[..nextLen + 1]);
    Pasted(before, r[..], 0, handled, tmp[..nextLen + 1]);
    assert before[0..handled] == line;
    assert tmp[..nextLen + 1] == next + [0];
    assert r[..] == line + (next + [0]);
  }

  lemma {:induction false} JoinedInPlace(s: array<byte>, line: seq<byte>, next: seq<byte>)
    requires |line| <= s.Length && s[..|line|] == line && Terminated(s, |line|, next)
    ensures Terminated(s, 0, line + next)
  {
    Slices(s[..], 0, |line|, |line| + |next|);
    assert s[0..|line| + |next|] == s[..][0..|line|] + s[..][|line|..|line| + |next|];
  }

  /** Read a continuation line behind the line in the buffer. */
  method Continue(src: Source, s0: array<byte>, own: bool, n: nat, read0: nat, ghost line0: seq<byte>)
    returns (status: Status, s: array<byte>, read: nat, ghost line: seq<byte>)
    requires Terminated(s0, 0, line0) && read0 == |line0| < n && (!own ==> n <= s0.Length)
    requires Peek(src.rest).Byte? && IsBlank(Peek(src.rest).b)
    modifies src, s0
    ensures !status.More? && if own then s == s0 || fresh(s) else s == s0
    ensures status.NoRoom? ==> Fold(old(src.rest), line0, n) == FoldNoSpace
    ensures status.Failure? ==> Fold(old(src.rest), line0, n) == FoldFailed(status.code)
    ensures status.Done? ==>
              && read == |line| < n && Terminated(s, 0, line)
              && Fold(old(src.rest), line0, n) == Fold(src.rest, line, n) && |src.rest| < |old(src.rest)|
  {
    s, read, line := s0, read0, line0;
    var tmp, nextLen, eos;
    status, tmp, nextLen, eos := ReadLine(src, if own then null else s0, own, if own then 0 else read, n - read);
    if status.Done? {
      ghost var next := Strip(Gather(old(src.rest), [], false, n - read).text);
      if !own {
        JoinedInPlace(s, line, next);
      } else if nextLen > 0 {
        s := Join(s, read, tmp, nextLen, line, next);
      } else {
        assert line + next == line;
      }
      line := line + next;
      read := read + nextLen;
    }
  }

  /** ap_rgetline_core with folding. The line is always shorter than n when a
      continuation is looked for, so the test for a full buffer never succeeds. */
  method ReadFoldedLine(src: Source, s0: array?<byte>, own: bool, n: nat)
    returns (status: Status, s: array?<byte>, read: nat)
    requires if own then s0 == null else s0 != null && 0 < n <= s0.Length
    modifies src, s0
    ensures
      match ReadFolded(old(src.rest), n)
      case Folded(line, rest) => status.Done? && src.rest == rest && read == |line| < n && Terminated(s, 0, line)
      case FoldNoSpace => status.NoRoom?
      case FoldFailed(code) => status == Failure(code)
    ensures own ==> s == null || fresh(s)
    ensures !own ==> s == s0
  {
    var sawEos;
    status, s, read, sawEos := ReadLine(src, s0, own, 0, n);
    if !status.Done? || read == 0 || sawEos {
      return;
    }
    ghost var line := Strip(Gather(old(src.rest), [], false, n).text);
    while status.Done?
      invariant status.Done? ==> read == |line| < n && Terminated(s, 0, line)
      invariant status.Done? ==> Fold(src.rest, line, n) == ReadFolded(old(src.rest), n)
      invariant status.NoRoom? ==> ReadFolded(old(src.rest), n).FoldNoSpace?
      invariant status.Failure? ==> ReadFolded(old(src.rest), n) == FoldFailed(status.code)
      invariant !status.More? && (if own then s == null || fresh(s) else s == s0)
      decreases status.Done?, |src.rest|
    {
      var p := Peek(src.rest);
      if p.PeekError? {
        return Failure(p.code), s, read;
      }
      if p.Nothing? || !IsBlank(p.b) {
        return;
      }
      status, s, read, line := Continue(src, s, own, n, read, line);
    }
  }
}
