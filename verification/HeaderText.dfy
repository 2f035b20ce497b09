/** Splitting a header field into name and value (RFC 2616, section 4.2). */
module HeaderText {
  import opened Basics
  import opened Buckets

  const NUL: byte := 0
  const COLON: byte := 58

  type Text = seq<byte>

  predicate AllBlank(s: Text) {
    forall i | 0 <= i < |s| :: IsBlank(s[i])
  }

  /** The first NUL from i on, or the length. */
  function NulFrom(s: Text, i: nat): (r: nat)
    requires i <= |s|
    ensures i <= r <= |s| && (r < |s| ==> s[r] == NUL) && forall k | i <= k < r :: s[k] != NUL
    decreases |s| - i
  {
    if i == |s| || s[i] == NUL then i else NulFrom(s, i + 1)
  }

  /** The C string at the start of s. */
  function CStr(s: Text): (r: Text)
    ensures r <= s && NUL !in r && (|r| < |s| ==> s[|r|] == NUL)
  {
    s[..NulFrom(s, 0)]
  }

  /** The first colon from i on, before any NUL, or -1. */
  function ColonFrom(s: Text, i: nat): (c: int)
    requires i <= |s|
    ensures c == -1 || i <= c < |s|
    ensures c != -1 ==> s[c] == COLON && forall k | i <= k < c :: s[k] != COLON && s[k] != NUL
    ensures c == -1 ==> forall k | i <= k < NulFrom(s, i) :: s[k] != COLON
    decreases |s| - i
  {
    if i == |s| || s[i] == NUL then -1 else if s[i] == COLON then i else ColonFrom(s, i + 1)
  }

  /** The first colon of the C string, or -1. */
  function ColonAt(s: Text): (c: int)
    ensures c == -1 || 0 <= c < |s|
    ensures c != -1 ==> s[c] == COLON && forall i | 0 <= i < c :: s[i] != COLON && s[i] != NUL
    ensures c == -1 ==> forall i | 0 <= i < |CStr(s)| :: s[i] != COLON
  {
    ColonFrom(s, 0)
  }

  /** The first byte from i on that is not blank. */
  function InkFrom(s: Text, i: nat): (r: nat)
    requires i <= |s|
    ensures i <= r <= |s| && (r < |s| ==> !IsBlank(s[r])) && forall k | i <= k < r :: IsBlank(s[k])
    decreases |s| - i
  {
    if i < |s| && IsBlank(s[i]) then InkFrom(s, i + 1) else i
  }

  function SkipBlanks(s: Text): (r: Text)
    ensures |r| <= |s| && s[|s| - |r|..] == r && AllBlank(s[..|s| - |r|])
    ensures r != [] ==> !IsBlank(r[0])
  {
    s[InkFrom(s, 0)..]
  }

  /** How many of the first n bytes are left when blanks are cut off their end, but
      never the first byte. */
  function InkTo(s: Text, n: nat): (r: nat)
    requires n <= |s|
    ensures r <= n && (n > 0 ==> r > 0) && (r > 1 ==> !IsBlank(s[r - 1]))
    ensures forall k | r <= k < n :: IsBlank(s[k])
  {
    if n > 1 && IsBlank(s[n - 1]) then InkTo(s, n - 1) else n
  }

  function TrimEnd(s: Text): (r: Text)
    ensures r <= s && AllBlank(s[|r|..])
    ensures |r| > 1 ==> !IsBlank(r[|r| - 1])
    ensures s != [] ==> r != []
  {
    s[..InkTo(s, |s|)]
  }

  datatype Pair = Pair(name: Text, value: Text)

  /** The field split at its first colon. */
  function Split(s: Text): Option<Pair> {
    var c := ColonAt(s);
    if c == -1 then None else Some(Pair(TrimEnd(s[..c]), CStr(TrimEnd(SkipBlanks(s[c + 1..])))))
  }

  /** The name, and the blanks a cut off behind it; a name of blanks keeps one. */
  predicate NamePart(name: Text, a: Text) {
    && AllBlank(a) && COLON !in name && NUL !in name
    && (name == [] ==> a == []) && (|name| > 1 ==> !IsBlank(name[|name| - 1]))
  }

  /** A text, and the blanks b and c around it. */
  predicate ValuePart(b: Text, value: Text, c: Text) {
    && AllBlank(b) && AllBlank(c)
    && (value != [] ==> !IsBlank(value[0]) && !IsBlank(value[|value| - 1]))
  }

  /** The field is a name, a colon and a text with nothing but the blanks a, b and c
      around them; the value is the text up to its first NUL. */
  predicate IsSplit(s: Text, h: Pair, a: Text, b: Text, text: Text, c: Text) {
    && s == (h.name + a) + ([COLON] + ((b + text) + c))
    && NamePart(h.name, a) && ValuePart(b, text, c) && h.value == CStr(text)
  }

  lemma {:induction false} CStrWhole(s: Text)
    requires NUL !in s
    ensures CStr(s) == s
  {}

  lemma {:induction false} NameParts(head: Text) returns (a: Text)
    requires COLON !in head && NUL !in head
    ensures head == TrimEnd(head) + a && NamePart(TrimEnd(head), a)
  {
    a := head[|TrimEnd(head)|..];
  }

  lemma {:induction false} Absent(s: Text, a: Text, b: Text)
    requires NUL !in s && s == a + b
    ensures NUL !in a && NUL !in b
  {
    assert forall i | 0 <= i < |b| :: b[i] == s[|a| + i];
    assert forall i | 0 <= i < |a| :: a[i] == s[i];
  }

  lemma {:induction false} Lead(tail: Text) returns (b: Text)
    ensures tail == b + SkipBlanks(tail) && AllBlank(b)
  {
    b := tail[..|tail| - |SkipBlanks(tail)|];
  }

  lemma {:induction false} Trail(rest: Text) returns (c: Text)
    requires rest != [] ==> !IsBlank(rest[0])
    ensures
      var text := TrimEnd(rest);
      && rest == text + c && AllBlank(c)
      && (text != [] ==> !IsBlank(text[0]) && !IsBlank(text[|text| - 1]))
  {
    c := rest[|TrimEnd(rest)|..];
  }

  lemma {:induction false} CutAt(s: Text, p: nat) returns (head: Text, tail: Text)
    requires p < |s| && s[p] == COLON && forall i | 0 <= i < p :: s[i] != COLON && s[i] != NUL
    ensures COLON !in head && NUL !in head
    ensures head == s[..p] && tail == s[p + 1..] && s == head + ([COLON] + tail)
  {
    head, tail := s[..p], s[p + 1..];
  }

  lemma {:induction false} Assembled(s: Text, head: Text, tail: Text, h: Pair, a: Text, b: Text, rest: Text, text: Text,
                                     c: Text)
    requires s == head + ([COLON] + tail) && head == h.name + a && tail == b + rest && rest == text + c
    requires NamePart(h.name, a) && ValuePart(b, text, c) && h.value == CStr(text)
    ensures IsSplit(s, h, a, b, text, c)
  {
    assert tail == (b + text) + c;
  }

  /** A field is split if and only if its C string has a colon. */
  lemma {:induction false} SplitIff(s: Text)
    ensures Split(s).Some? <==> COLON in CStr(s)
  {
    var c := ColonAt(s);
    assert c != -1 ==> c < |CStr(s)| && CStr(s)[c] == COLON;
  }

  /** Splitting takes a field apart at its first colon. */
  lemma {:induction false} SplitMeaning(s: Text, h: Pair) returns (a: Text, b: Text, text: Text, c: Text)
    requires Split(s) == Some(h)
    ensures IsSplit(s, h, a, b, text, c)
  {
    var head, tail := CutAt(s, ColonAt(s));
    var rest := SkipBlanks(tail);
    text := TrimEnd(rest);
    a := NameParts(head);
    b := Lead(tail);
    c := Trail(rest);
    Assembled(s, head, tail, h, a, b, rest, text, c);
  }

  /** The colon is where the first one is. */
  lemma {:induction false} ColonThere(s: Text, head: Text, tail: Text)
    requires s == head + ([COLON] + tail) && COLON !in head
    ensures s[|head|] == COLON && forall i | 0 <= i < |head| :: s[i] != COLON
  {
    assert forall i | 0 <= i < |head| :: s[i] == head[i];
  }

  lemma {:induction false} NameUnique(head: Text, name: Text, a: Text, name': Text, a': Text)
    requires head == name + a && head == name' + a' && NamePart(name, a) && NamePart(name', a')
    ensures |name| <= |name'|
  {
    forall k | |name'| <= k < |head| ensures IsBlank(head[k]) {
      assert head[k] == a'[k - |name'|];
    }
    assert name != [] ==> head[|name| - 1] == name[|name| - 1];
  }

  lemma {:induction false} ValueUnique(tail: Text, b: Text, value: Text, c: Text, b': Text, value': Text, c': Text)
    requires tail == (b + value) + c && tail == (b' + value') + c'
    requires ValuePart(b, value, c) && ValuePart(b', value', c')
    ensures value != [] ==> |b'| <= |b| && |c'| <= |c|
  {
    assert forall k | 0 <= k < |b'| :: tail[k] == b'[k];
    forall k | |b'| + |value'| <= k < |tail| ensures IsBlank(tail[k]) {
      assert tail[k] == c'[k - |b'| - |value'|];
    }
    assert value != [] ==> tail[|b|] == value[0] && tail[|b| + |value| - 1] == value[|value| - 1];
  }

  /** There is only one way to take a field apart. */
  lemma {:induction false} SplitUnique(s: Text, h: Pair, a: Text, b: Text, text: Text, c: Text,
                                       h': Pair, a': Text, b': Text, text': Text, c': Text)
    requires IsSplit(s, h, a, b, text, c) && IsSplit(s, h', a', b', text', c')
    ensures h == h'
  {
    var head, tail := h.name + a, (b + text) + c;
    var head', tail' := h'.name + a', (b' + text') + c';
    ColonThere(s, head, tail);
    ColonThere(s, head', tail');
    assert head == s[..|head|] == head' && tail == s[|head| + 1..] == tail';
    NameUnique(head, h.name, a, h'.name, a');
    NameUnique(head, h'.name, a', h.name, a);
    assert h.name == head[..|h.name|] && h'.name == head[..|h'.name|];
    ValueUnique(tail, b, text, c, b', text', c');
    ValueUnique(tail, b', text', c', b, text, c);
    assert text == tail[|b|..|tail| - |c|] && text' == tail[|b'|..|tail| - |c'|];
  }

  lemma {:induction false} CStrStop(a: Text, b: Text)
    requires b != [] && b[0] == NUL
    ensures CStr(a + b) == CStr(a)
  {
    var n, m := NulFrom(a, 0), NulFrom(a + b, 0);
    assert (a + b)[|a|] == NUL && forall i | 0 <= i < |a| :: (a + b)[i] == a[i];
    assert n == m;
  }
}
