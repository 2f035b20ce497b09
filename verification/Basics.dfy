/** What several modules share. */
module Basics {
  datatype Option<+T> = None | Some(value: T)

  function LowerChar(c: char): char {
    if 'A' <= c <= 'Z' then c - 'A' + 'a' else c
  }

  function Lower(s: string): string {
    seq(|s|, i requires 0 <= i < |s| => LowerChar(s[i]))
  }

  /** x is a capital letter, and y the small one. */
  predicate CaseOf(x: char, y: char) {
    'A' <= x <= 'Z' && y as int == x as int + 32
  }

  /** The same but for the case of letters. */
  predicate SameLetters(a: string, b: string) {
    |a| == |b| && forall i | 0 <= i < |a| :: a[i] == b[i] || CaseOf(a[i], b[i]) || CaseOf(b[i], a[i])
  }

  lemma {:induction false} LowerChars(x: char, y: char)
    ensures LowerChar(x) == LowerChar(y) <==> x == y || CaseOf(x, y) || CaseOf(y, x)
  {}

  /** strcasecmp: lower-case forms are equal exactly if the names differ in case only. */
  predicate SameName(a: string, b: string): (same: bool)
    ensures same <==> SameLetters(a, b)
  {
    LowerIff(a, b);
    Lower(a) == Lower(b)
  }

  lemma {:induction false} LowerIff(a: string, b: string)
    ensures Lower(a) == Lower(b) <==> SameLetters(a, b)
  {
    if |a| == |b| {
      forall i | 0 <= i < |a|
        ensures Lower(a)[i] == Lower(b)[i] <==> a[i] == b[i] || CaseOf(a[i], b[i]) || CaseOf(b[i], a[i])
      {
        LowerChars(a[i], b[i]);
      }
    }
    if Lower(a) == Lower(b) {
      assert |Lower(a)| == |Lower(b)|;
    }
  }
}
