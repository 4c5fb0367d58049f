/** Shared value types and the two text scanners every parser of the client is built from. */
module Text {

  datatype Option<+T> = None | Some(value: T)

  /** The longest prefix of `s` free of the characters in `stop`, and what follows it. */
  function Span(stop: set<char>, s: string): (r: (string, string))
    ensures s == r.0 + r.1
    ensures Free(stop, r.0)
    ensures r.1 != [] ==> r.1[0] in stop
  {
    if s == [] || s[0] in stop then ([], s)
    else
      var (a, b) := Span(stop, s[1..]);
      ([s[0]] + a, b)
  }

  /** No character of `s` is in `stop`. */
  predicate Free(stop: set<char>, s: string) {
    forall i | 0 <= i < |s| :: s[i] !in stop
  }

  /** `Span` is the only way to cut a text into a stop-free prefix and a rest that is empty or starts with a stop. */
  lemma {:induction false} SpanUnique(stop: set<char>, a: string, b: string)
    requires Free(stop, a)
    requires b != [] ==> b[0] in stop
    ensures Span(stop, a + b) == (a, b)
  {
    if a == [] {
      assert a + b == b;
    } else {
      assert (a + b)[1..] == a[1..] + b;
      SpanUnique(stop, a[1..], b);
      assert a == [a[0]] + a[1..];
    }
  }

  /** Drop the leading spaces. */
  function SkipSpaces(s: string): (r: string)
    ensures r != [] ==> r[0] != ' '
    ensures |r| <= |s|
  {
    if s != [] && s[0] == ' ' then SkipSpaces(s[1..]) else s
  }

  predicate AllSpaces(s: string) {
    forall i | 0 <= i < |s| :: s[i] == ' '
  }

  lemma {:induction false} SkipSpacesUnique(sp: string, s: string)
    requires AllSpaces(sp)
    requires s != [] ==> s[0] != ' '
    ensures SkipSpaces(sp + s) == s
  {
    if sp == [] {
      assert sp + s == s;
    } else {
      assert (sp + s)[1..] == sp[1..] + s;
      SkipSpacesUnique(sp[1..], s);
    }
  }
}
