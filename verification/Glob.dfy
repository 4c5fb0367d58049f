/** Globs in two readings, that of the code and the documented one, and how the parts of a text that a glob matches are
    found. */
module Globs {
  import opened Text
  import opened Masks

  /** The documented meaning of a mask: `?` stands for exactly one character. */
  predicate DocumentedMatches(g: seq<Glob>, s: string) {
    if g == [] then s == []
    else
      match g[0]
      case Lit(c) => s != [] && s[0] == c && DocumentedMatches(g[1..], s[1..])
      case Many => exists i :: 0 <= i <= |s| && DocumentedMatches(g[1..], s[i..])
      case AtMostOne => s != [] && DocumentedMatches(g[1..], s[1..])
  }

  /** The shortest text a mask matches: its literal characters. */
  function Literals(g: seq<Glob>): string {
    if g == [] then [] else (if g[0].Lit? then [g[0].c] else []) + Literals(g[1..])
  }

  function Marks(g: seq<Glob>): nat {
    if g == [] then 0 else (if g[0].AtMostOne? then 1 else 0) + Marks(g[1..])
  }

  lemma {:induction false} LiteralsMatch(g: seq<Glob>)
    ensures GlobMatches(g, Literals(g))
  {
    if g != [] {
      LiteralsMatch(g[1..]);
      assert Literals(g)[0..] == Literals(g);
      if g[0].Lit? { assert Literals(g)[1..] == Literals(g[1..]); }
    }
  }

  lemma {:induction false} DocumentedLength(g: seq<Glob>, s: string)
    requires DocumentedMatches(g, s)
    ensures |s| >= |Literals(g)| + Marks(g)
  {
    if g != [] {
      match g[0]
      case Many =>
        var i :| 0 <= i <= |s| && DocumentedMatches(g[1..], s[i..]);
        DocumentedLength(g[1..], s[i..]);
      case _ => DocumentedLength(g[1..], s[1..]);
    }
  }

  lemma {:induction false} WithoutMarks(g: seq<Glob>, s: string)
    requires Marks(g) == 0
    ensures GlobMatches(g, s) <==> DocumentedMatches(g, s)
  {
    if g != [] {
      forall i | 0 <= i <= |s|
        ensures GlobMatches(g[1..], s[i..]) <==> DocumentedMatches(g[1..], s[i..])
      {
        WithoutMarks(g[1..], s[i..]);
      }
    }
  }

  // ----- One element at a time -----

  /** Matching goes part by part, in both readings; `exact` is the documented one. */
  predicate Matches(exact: bool, g: seq<Glob>, s: string) {
    if exact then DocumentedMatches(g, s) else GlobMatches(g, s)
  }

  /** What one element may match. */
  predicate Takes(exact: bool, x: Glob, s: string) {
    match x
    case Lit(c) => s == [c]
    case Many => true
    case AtMostOne => |s| == 1 || (!exact && s == [])
  }

  /** The first element takes a prefix of the text. */
  predicate FirstTakes(exact: bool, g: seq<Glob>, s: string, k: int)
    requires g != []
  {
    0 <= k <= |s| && Takes(exact, g[0], s[..k]) && Matches(exact, g[1..], s[k..])
  }

  lemma MatchFirst(exact: bool, g: seq<Glob>, s: string)
    requires g != []
    ensures Matches(exact, g, s) <==> exists k :: FirstTakes(exact, g, s, k)
  {
    assert s[0..] == s;
    if Matches(exact, g, s) {
      match g[0]
      case Lit(c) => assert FirstTakes(exact, g, s, 1);
      case Many =>
        var k :| 0 <= k <= |s| && Matches(exact, g[1..], s[k..]);
        assert FirstTakes(exact, g, s, k);
      case AtMostOne =>
        if s != [] && Matches(exact, g[1..], s[1..]) { assert FirstTakes(exact, g, s, 1); }
        else { assert FirstTakes(exact, g, s, 0); }
    }
    if k :| FirstTakes(exact, g, s, k) {
      assert k == 0 ==> s[k..] == s;
      assert g[0].Lit? ==> s[..k][0] == g[0].c;
    }
  }

  lemma {:induction false} MatchJoin(exact: bool, a: seq<Glob>, b: seq<Glob>, s: string, r: string)
    requires Matches(exact, a, s) && Matches(exact, b, r)
    ensures Matches(exact, a + b, s + r)
  {
    if a == [] {
      assert a + b == b && s + r == r;
    } else {
      MatchFirst(exact, a, s);
      var k :| FirstTakes(exact, a, s, k);
      MatchJoin(exact, a[1..], b, s[k..], r);
      assert (a + b)[1..] == a[1..] + b && (s + r)[k..] == s[k..] + r && (s + r)[..k] == s[..k];
      assert FirstTakes(exact, a + b, s + r, k);
      MatchFirst(exact, a + b, s + r);
    }
  }

  lemma {:induction false} MatchSplit(exact: bool, a: seq<Glob>, b: seq<Glob>, s: string) returns (i: nat)
    requires Matches(exact, a + b, s)
    ensures i <= |s| && Matches(exact, a, s[..i]) && Matches(exact, b, s[i..])
  {
    if a == [] {
      i := 0;
      assert a + b == b && s[..0] == [] && s[0..] == s;
    } else {
      MatchFirst(exact, a + b, s);
      var k :| FirstTakes(exact, a + b, s, k);
      assert (a + b)[1..] == a[1..] + b;
      var j := MatchSplit(exact, a[1..], b, s[k..]);
      i := k + j;
      assert s[k..][..j] == s[..i][k..] && s[k..][j..] == s[i..] && s[..i][..k] == s[..k];
      assert FirstTakes(exact, a, s[..i], k);
      MatchFirst(exact, a, s[..i]);
    }
  }

  lemma LitMatches(exact: bool, d: char, s: string)
    ensures Matches(exact, [Lit(d)], s) <==> s == [d]
  {
    assert [Lit(d)][0] == Lit(d) && [Lit(d)][1..] == [];
    if s != [] {
      assert s == [s[0]] + s[1..];
      assert Matches(exact, [], s[1..]) <==> s[1..] == [];
    }
  }

  lemma {:induction false} ExactIsMatch(g: seq<Glob>, s: string)
    requires DocumentedMatches(g, s)
    ensures GlobMatches(g, s)
  {
    if g != [] {
      MatchFirst(true, g, s);
      var k :| FirstTakes(true, g, s, k);
      ExactIsMatch(g[1..], s[k..]);
      assert FirstTakes(false, g, s, k);
      MatchFirst(false, g, s);
    }
  }

  // ----- Globs of whole masks -----

  /** The glob of a completed mask. */
  function Whole(nick: seq<Glob>, user: seq<Glob>, host: seq<Glob>): seq<Glob> {
    nick + [Lit('!')] + (user + [Lit('@')] + host)
  }

  /** A text that a whole mask matches has the parts that its parts match. */
  lemma WholeSplit(exact: bool, nick: seq<Glob>, user: seq<Glob>, host: seq<Glob>, s: string)
    returns (n: string, u: string, h: string)
    requires Matches(exact, Whole(nick, user, host), s)
    ensures s == n + "!" + u + "@" + h
    ensures Matches(exact, nick, n) && Matches(exact, user, u) && Matches(exact, host, h)
  {
    var right := user + [Lit('@')] + host;
    var i := MatchSplit(exact, nick + [Lit('!')], right, s);
    var j := MatchSplit(exact, nick, [Lit('!')], s[..i]);
    var k := MatchSplit(exact, user + [Lit('@')], host, s[i..]);
    var l := MatchSplit(exact, user, [Lit('@')], s[i..][..k]);
    LitMatches(exact, '!', s[..i][j..]);
    LitMatches(exact, '@', s[i..][..k][l..]);
    n, u, h := s[..i][..j], s[i..][..k][..l], s[i..][k..];
    assert s[..i] == n + "!" && s[i..][..k] == u + "@";
    assert s == s[..i] + (s[i..][..k] + s[i..][k..]);
  }

  lemma WholeJoin(exact: bool, nick: seq<Glob>, user: seq<Glob>, host: seq<Glob>, n: string, u: string, h: string)
    requires Matches(exact, nick, n) && Matches(exact, user, u) && Matches(exact, host, h)
    ensures Matches(exact, Whole(nick, user, host), n + "!" + u + "@" + h)
  {
    LitMatches(exact, '!', "!");
    LitMatches(exact, '@', "@");
    MatchJoin(exact, user, [Lit('@')], u, "@");
    MatchJoin(exact, user + [Lit('@')], host, u + "@", h);
    MatchJoin(exact, nick, [Lit('!')], n, "!");
    MatchJoin(exact, nick + [Lit('!')], user + [Lit('@')] + host, n + "!", u + "@" + h);
    assert n + "!" + u + "@" + h == n + "!" + (u + "@" + h);
  }

  lemma Regroup(a: seq<Glob>, b: seq<Glob>, c: seq<Glob>)
    ensures a + b + c == a + (b + c)
  {}

  lemma {:induction false} MarksAppend(a: seq<Glob>, b: seq<Glob>)
    ensures Marks(a + b) == Marks(a) + Marks(b)
  {
    if a == [] {
      assert a + b == b;
    } else {
      assert (a + b)[1..] == a[1..] + b;
      MarksAppend(a[1..], b);
    }
  }

  lemma WholeMarks(n: seq<Glob>, u: seq<Glob>, h: seq<Glob>)
    ensures Marks(Whole(n, u, h)) == Marks(n) + Marks(u) + Marks(h)
  {
    assert Marks([Lit('!')]) == Marks([Lit('@')]) == 0;
    MarksAppend(n + [Lit('!')], u + [Lit('@')] + h);
    MarksAppend(n, [Lit('!')]);
    MarksAppend(u + [Lit('@')], h);
    MarksAppend(u, [Lit('@')]);
  }

  lemma {:induction false} LiteralsAppend(a: seq<Glob>, b: seq<Glob>)
    ensures Literals(a + b) == Literals(a) + Literals(b)
  {
    if a == [] {
      assert a + b == b;
    } else {
      assert (a + b)[1..] == a[1..] + b;
      LiteralsAppend(a[1..], b);
    }
  }

  lemma WholeLiterals(n: seq<Glob>, u: seq<Glob>, h: seq<Glob>)
    ensures Literals(Whole(n, u, h)) == Literals(n) + "!" + Literals(u) + "@" + Literals(h)
  {
    assert Literals([Lit('!')]) == "!" && Literals([Lit('@')]) == "@";
    LiteralsAppend(n + [Lit('!')], u + [Lit('@')] + h);
    LiteralsAppend(n, [Lit('!')]);
    LiteralsAppend(u + [Lit('@')], h);
    LiteralsAppend(u, [Lit('@')]);
  }

  // ----- Counting characters -----

  function Count(c: char, s: string): nat {
    multiset(s)[c]
  }

  lemma CountAppend(c: char, a: string, b: string)
    ensures Count(c, a + b) == Count(c, a) + Count(c, b)
  {}

  lemma {:induction false} LiteralsCount(exact: bool, g: seq<Glob>, s: string, c: char)
    requires Matches(exact, g, s)
    ensures Count(c, s) >= Count(c, Literals(g))
  {
    if g != [] {
      MatchFirst(exact, g, s);
      var k :| FirstTakes(exact, g, s, k);
      LiteralsCount(exact, g[1..], s[k..], c);
      CountAppend(c, s[..k], s[k..]);
      assert s == s[..k] + s[k..];
      CountAppend(c, if g[0].Lit? then [g[0].c] else [], Literals(g[1..]));
    }
  }

  /** Cutting a text at a delimiter so that nothing after the cut has more delimiters cuts it at the first. */
  lemma SameCut(c: char, a: string, b: string, x: string, y: string)
    requires a + [c] + b == x + [c] + y && c !in a && Count(c, y) >= Count(c, b)
    ensures x == a && y == b
  {
    CountAppend(c, a + [c], b);
    CountAppend(c, a, [c]);
    CountAppend(c, x + [c], y);
    CountAppend(c, x, [c]);
    assert Count(c, a) == 0;
    assert c !in x;
    assert a + [c] + b == a + ([c] + b) && x + [c] + y == x + ([c] + y);
    SpanUnique({c}, a, [c] + b);
    SpanUnique({c}, x, [c] + y);
    assert ([c] + b)[1..] == b && ([c] + y)[1..] == y;
  }

  // ----- Literals and wildcards -----

  predicate AllLiteral(g: seq<Glob>) {
    forall i | 0 <= i < |g| :: g[i].Lit?
  }

  predicate HasStar(g: seq<Glob>) {
    Many in g
  }

  lemma {:induction false} LiteralSelf(exact: bool, g: seq<Glob>, s: string)
    requires AllLiteral(g)
    ensures Matches(exact, g, s) <==> s == Literals(g)
    ensures Marks(g) == 0 && !HasStar(g)
  {
    if g != [] {
      if s != [] {
        LiteralSelf(exact, g[1..], s[1..]);
        assert s == [s[0]] + s[1..];
      }
      LiteralSelf(exact, g[1..], "");
    }
  }

  lemma {:induction false} LiteralOnly(g: seq<Glob>, s: string)
    requires AllLiteral(g) && GlobMatches(g, s)
    ensures s == Literals(g) && Marks(g) == 0
  {
    if g != [] {
      LiteralOnly(g[1..], s[1..]);
      assert s == [s[0]] + s[1..];
    }
  }

  lemma {:induction false} NoWildcards(g: seq<Glob>)
    requires !HasStar(g) && Marks(g) == 0
    ensures AllLiteral(g)
  {
    if g != [] {
      NoWildcards(g[1..]);
      assert g[0] in g;
    }
  }

  /** A part that is not literal has a wildcard. */
  lemma {:induction false} SomeWild(g: seq<Glob>) returns (a: seq<Glob>, x: Glob, b: seq<Glob>)
    requires !AllLiteral(g)
    ensures g == a + [x] + b && !x.Lit?
  {
    if g[0].Lit? {
      var c;
      c, x, b := SomeWild(g[1..]);
      a := [g[0]] + c;
    } else {
      a, x, b := [], g[0], g[1..];
    }
  }

  lemma {:induction false} StarMatches(g: seq<Glob>, s: string)
    requires Literals(g) == [] && HasStar(g)
    ensures GlobMatches(g, s)
  {
    if g[0].Many? {
      LiteralsMatch(g[1..]);
      assert s[|s|..] == "" && Literals(g[1..]) == [];
      assert GlobMatches(g[1..], s[|s|..]);
    } else {
      StarMatches(g[1..], s);
    }
  }

  /** Cut at the first star. */
  lemma StarSplit(g: seq<Glob>) returns (a: seq<Glob>, b: seq<Glob>)
    requires HasStar(g)
    ensures g == a + [Many] + b && !HasStar(a)
    ensures Literals(g) == Literals(a) + Literals(b) && Marks(g) == Marks(a) + Marks(b)
  {
    if g[0].Many? {
      a, b := [], g[1..];
    } else {
      var c, d := StarSplit(g[1..]);
      a, b := [g[0]] + c, d;
      assert a[1..] == c;
    }
  }

  /** A star may take any text. */
  lemma StarTakes(a: seq<Glob>, s: string, b: seq<Glob>)
    ensures GlobMatches(a + [Many] + b, Literals(a) + s + Literals(b))
  {
    LiteralsMatch(a);
    LiteralsMatch(b);
    StarMatches([Many], s);
    MatchJoin(false, a, [Many], Literals(a), s);
    MatchJoin(false, a + [Many], b, Literals(a) + s, Literals(b));
  }

  lemma {:induction false} NoStarLength(g: seq<Glob>, s: string)
    requires !HasStar(g) && GlobMatches(g, s)
    ensures |s| <= |Literals(g)| + Marks(g)
  {
    if g != [] {
      MatchFirst(false, g, s);
      var k :| FirstTakes(false, g, s, k);
      NoStarLength(g[1..], s[k..]);
    }
  }

  lemma {:induction false} LiteralsSplit(a: seq<Glob>, x: Glob, b: seq<Glob>)
    requires !x.Lit?
    ensures Literals(a + [x] + b) == Literals(a) + Literals(b)
    ensures Marks(a + [x] + b) == Marks(a) + Marks(b) + if x.AtMostOne? then 1 else 0
  {
    var g := a + [x] + b;
    if a == [] {
      assert g[0] == x && g[1..] == b;
    } else {
      assert g[0] == a[0] && g[1..] == a[1..] + [x] + b;
      LiteralsSplit(a[1..], x, b);
      var y := if a[0].Lit? then [a[0].c] else [];
      assert y + (Literals(a[1..]) + Literals(b)) == y + Literals(a[1..]) + Literals(b);
    }
  }
}
