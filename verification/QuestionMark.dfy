/** The `?` of masks: documented as one character, compiled to at most one, and exactly which masks anybody can tell the
    difference for. */
module QuestionMarks {
  import opened Text
  import opened UserInfos
  import opened Identifiers
  import opened Masks
  import opened Globs
  import opened MaskReadings

  /** The mask, with `?` as documented. */
  predicate OneCharacter(m: string, u: UserInfo) {
    DocumentedMatches(FoldedGlob(ParseMaskComponents(m)), Fold(RenderUserInfo(u)))
  }

  // ----- Question marks that nobody notices -----

  /** Only wildcards, and just one `?` among them. */
  predicate Lone(g: seq<Glob>) {
    Literals(g) == [] && Marks(g) == 1
  }

  /** Literals, then wildcards. */
  predicate LiteralsFirst(g: seq<Glob>) {
    Literals(g) == [] || (g[0].Lit? && LiteralsFirst(g[1..]))
  }

  /** A part without `?`, or of nothing but wildcards with a single `?`. */
  predicate AtMostLone(g: seq<Glob>) {
    Marks(g) == 0 || Lone(g)
  }

  /** Wildcards, then literals. */
  predicate WildFirst(g: seq<Glob>) {
    g == [] || if g[0].Lit? then AllLiteral(g) else WildFirst(g[1..])
  }

  /** Literals, then wildcards, then literals. */
  predicate OneGroup(g: seq<Glob>) {
    g == [] || if g[0].Lit? then OneGroup(g[1..]) else WildFirst(g)
  }

  /** All wildcards stand together, with at most one `?` among them. */
  predicate Together(g: seq<Glob>) {
    Marks(g) <= 1 && OneGroup(g)
  }

  /** Whether no user notices the `?` of a mask. With a user and a host part: behind a nickname without wildcards a user
      part of wildcards meets no empty name, and a host part of wildcards meets no empty host unless a star in the user
      part can run past an `@`. Where the user or the host part is spelled out as empty, any matching user makes some
      wildcard run past an `@`, and then a `?` beside it has a character to take. */
  predicate Unnoticed(nick: seq<Glob>, user: seq<Glob>, host: seq<Glob>) {
    if user == [] then AllLiteral(nick) || (Together(nick) && Marks(host) == 0)
    else if host == [] then
      if AllLiteral(nick) then Together(user) || (Marks(user) == 2 && WildFirst(user))
      else Together(nick) && AllLiteral(user)
    else
      && AllLiteral(nick) && AtMostLone(user) && AtMostLone(host)
      && (Marks(host) > 0 ==> LiteralsFirst(user) && (HasStar(user) ==> HasStar(host)))
  }

  /** Wildcards alone match any single character. */
  lemma WildOne(g: seq<Glob>, s: string)
    requires Literals(g) == [] && g != [] && |s| == 1
    ensures GlobMatches(g, s)
  {
    LiteralsMatch(g[1..]);
    assert s[1..] == "" && Literals(g[1..]) == [];
    assert GlobMatches(g[1..], s[1..]);
  }

  lemma {:induction false} LoneMatches(g: seq<Glob>, s: string)
    requires Literals(g) == [] && Marks(g) <= 1 && GlobMatches(g, s) && (Marks(g) == 1 ==> s != "")
    ensures DocumentedMatches(g, s)
  {
    if g != [] {
      var rest := g[1..];
      assert Literals(rest) == [];
      if g[0].AtMostOne? {
        if !GlobMatches(rest, s[1..]) { StarsMatch(rest, s, s[1..]); }
        LoneMatches(rest, s[1..]);
      } else {
        var i :| 0 <= i <= |s| && GlobMatches(rest, s[i..]);
        if Marks(g) == 1 && i == |s| {
          WildOne(rest, s[|s| - 1..]);
          LoneMatches(rest, s[|s| - 1..]);
        } else {
          LoneMatches(rest, s[i..]);
        }
      }
    }
  }

  lemma StarsMatch(g: seq<Glob>, s: string, r: string)
    requires Literals(g) == [] && Marks(g) == 0 && GlobMatches(g, s) && s != ""
    ensures GlobMatches(g, r)
  {
    LiteralsMatch(g[1..]);
    assert r[|r|..] == "" && Literals(g[1..]) == [];
    assert GlobMatches(g[1..], r[|r|..]);
  }

  /** A user part of this shape that matches a text also matches, as documented, a shorter beginning of it. */
  lemma {:induction false} ShorterName(u: seq<Glob>, y: string, name: string)
    requires AtMostLone(u) && LiteralsFirst(u) && HasStar(u) && GlobMatches(u, y)
    requires (Marks(u) > 0 ==> name != "") && name <= y && |Literals(u)| <= |name|
    ensures DocumentedMatches(u, name)
  {
    if Literals(u) == [] {
      StarMatches(u, name);
      LoneMatches(u, name);
    } else {
      ShorterName(u[1..], y[1..], name[1..]);
    }
  }

  lemma ExactPart(g: seq<Glob>, s: string)
    requires AtMostLone(g) && GlobMatches(g, s) && s != ""
    ensures DocumentedMatches(g, s)
  {
    if Marks(g) == 0 {
      WithoutMarks(g, s);
    } else {
      LoneMatches(g, s);
    }
  }

  lemma {:induction false} LiteralsPrefix(g: seq<Glob>, s: string)
    requires LiteralsFirst(g) && GlobMatches(g, s)
    ensures Literals(g) <= s
  {
    if Literals(g) != [] {
      LiteralsPrefix(g[1..], s[1..]);
      assert s == [s[0]] + s[1..];
    }
  }

  /** Only a star runs past the end of the name, and the literals before it do not. */
  lemma RunsPast(u: seq<Glob>, y: string, name: string)
    requires AtMostLone(u) && LiteralsFirst(u) && GlobMatches(u, y)
    requires name != "" && name + "@" <= y && Free({'@'}, Literals(u))
    ensures HasStar(u) && |Literals(u)| <= |name|
  {
    assert y[|name|] == '@' by { assert (name + "@")[|name|] == '@'; }
    LiteralsPrefix(u, y);
    if !HasStar(u) {
      NoStarLength(u, y);
      if Marks(u) == 0 {
        NoWildcards(u);
        LiteralOnly(u, y);
      }
    }
  }

  /** With a user and a host part, some way to cut the text leaves neither empty. */
  lemma NoEmptyPart(n: seq<Glob>, u: seq<Glob>, h: seq<Glob>, who: UserInfo)
    requires Splittable(who) && Free({'!', '@'}, Literals(n)) && Free({'@'}, Literals(u))
    requires u != [] && h != [] && Unnoticed(n, u, h) && GlobMatches(Whole(n, u, h), Fold(RenderUserInfo(who)))
    ensures DocumentedMatches(Whole(n, u, h), Fold(RenderUserInfo(who)))
  {
    var x, y, z := WholeSplit(false, n, u, h, Fold(RenderUserInfo(who)));
    LiteralOnly(n, x);
    WithoutMarks(n, x);
    var name, host := UserCut(who, x, y, z);
    if y == name && z == host {
      ExactPart(u, y);
      ExactPart(h, z);
      WholeJoin(true, n, u, h, x, y, z);
    } else if Marks(h) == 0 {
      ExactPart(u, y);
      WithoutMarks(h, z);
      WholeJoin(true, n, u, h, x, y, z);
    } else {
      RunsPast(u, y, name);
      ShorterName(u, y, name);
      StarMatches(h, host);
      LoneMatches(h, host);
      WholeJoin(true, n, u, h, x, name, host);
    }
  }

  // ----- Masks without user or host -----

  /** How many characters wildcards in front may take, in either reading. */
  predicate Allowed(exact: bool, g: seq<Glob>, k: int) {
    (exact ==> k >= Marks(g)) && (HasStar(g) || k <= Marks(g))
  }

  /** Wildcards in front match exactly so many characters as allowed; the literals match themselves. */
  lemma {:induction false} WildFirstMatches(exact: bool, g: seq<Glob>, s: string)
    requires WildFirst(g)
    ensures Matches(exact, g, s) <==>
              var k := |s| - |Literals(g)|; k >= 0 && s[k..] == Literals(g) && Allowed(exact, g, k)
  {
    var l := Literals(g);
    var k := |s| - |l|;
    if g == [] || g[0].Lit? {
      LiteralSelf(exact, g, s);
    } else {
      var rest := g[1..];
      assert Literals(rest) == l;
      assert HasStar(g) <==> g[0].Many? || HasStar(rest);
      forall i | 0 <= i <= |s|
        ensures Matches(exact, rest, s[i..]) <==>
                  k - i >= 0 && s[k..] == l && Allowed(exact, rest, k - i)
      {
        WildFirstMatches(exact, rest, s[i..]);
        if k - i >= 0 { assert s[i..][k - i..] == s[k..]; }
      }
      MatchFirst(exact, g, s);
      if k >= 0 && s[k..] == l && Allowed(exact, g, k) {
        var i := if g[0].AtMostOne? then (if k == 0 then 0 else 1)
                 else if HasStar(rest) || k < Marks(rest) then 0 else k - Marks(rest);
        assert Matches(exact, rest, s[i..]);
        assert FirstTakes(exact, g, s, i);
      }
    }
  }

  /** Wildcards that stand together take part in a match unless the text is just the literals; then at most one `?`
      among them cannot be told from the documented one. */
  lemma {:induction false} TogetherExact(g: seq<Glob>, s: string)
    requires Together(g) && GlobMatches(g, s) && (s != Literals(g) || Marks(g) == 0)
    ensures DocumentedMatches(g, s)
  {
    if g == [] {
    } else if g[0].Lit? {
      assert s == [s[0]] + s[1..];
      TogetherExact(g[1..], s[1..]);
    } else if Marks(g) == 0 {
      WithoutMarks(g, s);
    } else {
      WildFirstMatches(false, g, s);
      WildFirstMatches(true, g, s);
      var k := |s| - |Literals(g)|;
      assert s[0..] == s;
    }
  }

  /** A matching user runs past an `@` or has a name and a host. */
  lemma EmptyUser(n: seq<Glob>, h: seq<Glob>, who: UserInfo)
    requires Splittable(who) && Free({'!', '@'}, Literals(n))
    requires Unnoticed(n, [], h) && GlobMatches(Whole(n, [], h), Fold(RenderUserInfo(who)))
    ensures DocumentedMatches(Whole(n, [], h), Fold(RenderUserInfo(who)))
  {
    var x, y, z := WholeSplit(false, n, [], h, Fold(RenderUserInfo(who)));
    assert y == "";
    NoName(who, x, z);
    if AllLiteral(n) { LiteralOnly(n, x); }
    TogetherExact(n, x);
    WithoutMarks(h, z);
    WholeJoin(true, n, [], h, x, y, z);
  }

  lemma NoName(who: UserInfo, x: string, z: string)
    requires Splittable(who) && Fold(RenderUserInfo(who)) == x + "!" + "" + "@" + z
    ensures !Free({'!', '@'}, x)
  {
    if Free({'!', '@'}, x) {
      var name, host := UserCut(who, x, "", z);
    }
  }

  lemma NoHost(who: UserInfo, x: string, y: string)
    requires Splittable(who) && Fold(RenderUserInfo(who)) == x + "!" + y + "@" + "" && Free({'!', '@'}, x)
    ensures !Free({'@'}, y) && |y| >= 2 && exists i :: 1 <= i < |y| && y[i] == '@'
  {
    var name, host := UserCut(who, x, y, "");
    assert (name + "@")[|name|] == '@';
    assert y[|name|] == '@';
  }

  lemma EmptyHost(n: seq<Glob>, u: seq<Glob>, who: UserInfo)
    requires Splittable(who) && Free({'!', '@'}, Literals(n)) && Free({'@'}, Literals(u)) && u != []
    requires Unnoticed(n, u, []) && GlobMatches(Whole(n, u, []), Fold(RenderUserInfo(who)))
    ensures DocumentedMatches(Whole(n, u, []), Fold(RenderUserInfo(who)))
  {
    var x, y, z := WholeSplit(false, n, u, [], Fold(RenderUserInfo(who)));
    assert z == "";
    if AllLiteral(n) {
      LiteralOnly(n, x);
      WithoutMarks(n, x);
      NoHost(who, x, y);
      if Together(u) {
        TogetherExact(u, y);
      } else {
        LongEnough(u, y);
      }
    } else {
      LiteralOnly(u, y);
      WithoutMarks(u, y);
      if Free({'!', '@'}, x) { NoHost(who, x, y); }
      TogetherExact(n, x);
    }
    WholeJoin(true, n, u, [], x, y, z);
  }

  lemma LongEnough(u: seq<Glob>, y: string)
    requires WildFirst(u) && Marks(u) == 2 && GlobMatches(u, y) && Free({'@'}, Literals(u))
    requires exists i :: 1 <= i < |y| && y[i] == '@'
    ensures DocumentedMatches(u, y)
  {
    WildFirstMatches(false, u, y);
    WildFirstMatches(true, u, y);
    var k := |y| - |Literals(u)|;
    assert forall j | 0 <= j < |Literals(u)| :: y[k + j] == y[k..][j] == Literals(u)[j];
    var i :| 1 <= i < |y| && y[i] == '@';
    assert forall j | k <= j < |y| :: y[j] == Literals(u)[j - k];
    assert i < k;
  }

  /** Nobody notices such a `?`: the documented reading matches the same users. */
  lemma NotNoticed(n: seq<Glob>, u: seq<Glob>, h: seq<Glob>, who: UserInfo)
    requires Splittable(who) && Free({'!', '@'}, Literals(n)) && Free({'@'}, Literals(u))
    requires Unnoticed(n, u, h) && GlobMatches(Whole(n, u, h), Fold(RenderUserInfo(who)))
    ensures DocumentedMatches(Whole(n, u, h), Fold(RenderUserInfo(who)))
  {
    if u == [] {
      EmptyUser(n, h, who);
    } else if h == [] {
      EmptyHost(n, u, who);
    } else {
      NoEmptyPart(n, u, h, who);
    }
  }

  // ----- The shortest user shows the difference -----

  /** The user shows the difference. */
  predicate Tells(n: seq<Glob>, u: seq<Glob>, h: seq<Glob>, who: UserInfo) {
    var t := Fold(RenderUserInfo(who));
    Splittable(who) && GlobMatches(Whole(n, u, h), t) && !DocumentedMatches(Whole(n, u, h), t)
  }

  /** The shortest nonempty text for a part of a mask: its literals, or any character. */
  function Filled(g: seq<Glob>): string {
    if Literals(g) == [] then "X" else Literals(g)
  }

  lemma {:induction false} FilledMatches(g: seq<Glob>)
    requires g != []
    ensures GlobMatches(g, Filled(g))
  {
    LiteralsMatch(g);
    if Literals(g) == [] {
      LiteralsMatch(g[1..]);
      assert "X"[1..] == "" && Literals(g[1..]) == [];
      assert GlobMatches(g[1..], "X"[1..]);
    }
  }

  /** When the documented reading matches the shortest user of a mask, its parts match the parts. */
  lemma ShortestExact(nick: seq<Glob>, user: seq<Glob>, host: seq<Glob>)
    requires Free({'!', '@'}, Literals(nick)) && Free({'@'}, Literals(user))
    requires DocumentedMatches(Whole(nick, user, host), Literals(nick) + "!" + Filled(user) + "@" + Filled(host))
    ensures Marks(nick) == 0
    ensures Marks(user) == 0 || Lone(user)
    ensures Marks(host) == 0 || Lone(host)
  {
    var t := Literals(nick) + "!" + Filled(user) + "@" + Filled(host);
    var n, u, h := WholeSplit(true, nick, user, host, t);
    LiteralsCount(true, host, h, '@');
    LiteralsCount(true, user, u, '!');
    SameCut('@', Literals(nick) + "!" + Filled(user), Filled(host), n + "!" + u, h);
    SameCut('!', Literals(nick), Filled(user), n, u);
    DocumentedLength(nick, n);
    DocumentedLength(user, u);
    DocumentedLength(host, h);
  }

  /** The shortest user that a mask of these parts matches. */
  function Shortest(nick: string, user: string, host: string): UserInfo {
    UserInfo(Literals(FoldedGlob(nick)), Filled(FoldedGlob(user)), Filled(FoldedGlob(host)))
  }

  lemma FilledClean(g: seq<Glob>)
    requires Fold(Literals(g)) == Literals(g)
    ensures Filled(g) != "" && Fold(Filled(g)) == Filled(g)
    ensures Free({'@'}, Literals(g)) ==> Free({'@'}, Filled(g))
  {
    assert Fold("X") == "X";
  }

  lemma ShortestUser(nick: string, user: string, host: string)
    requires Free({'!', '@'}, nick) && Free({'@'}, user)
    ensures var who := Shortest(nick, user, host);
            && Splittable(who) && Fold(RenderUserInfo(who)) == who.nick + "!" + who.name + "@" + who.host
  {
    var who := Shortest(nick, user, host);
    CleanParts(nick, user, host);
    FilledClean(FoldedGlob(user));
    FilledClean(FoldedGlob(host));
    FullText(who.nick, who.name, who.host);
  }

  lemma FullText(nick: string, name: string, host: string)
    requires Fold(nick) == nick && Fold(name) == name && Fold(host) == host && name != "" && host != ""
    ensures Fold(RenderUserInfo(UserInfo(nick, name, host))) == nick + "!" + name + "@" + host
  {
    FoldCompleted(nick, name, host);
    assert RenderUserInfo(UserInfo(nick, name, host)) == nick + "!" + name + "@" + host;
  }

  lemma ShortestMatches(nick: string, user: string, host: string)
    requires user != "" && host != ""
    ensures var who := Shortest(nick, user, host);
            GlobMatches(Whole(FoldedGlob(nick), FoldedGlob(user), FoldedGlob(host)),
                        who.nick + "!" + who.name + "@" + who.host)
  {
    FoldedStep(user);
    FoldedStep(host);
    LiteralsMatch(FoldedGlob(nick));
    FilledMatches(FoldedGlob(user));
    FilledMatches(FoldedGlob(host));
    var who := Shortest(nick, user, host);
    WholeJoin(false, FoldedGlob(nick), FoldedGlob(user), FoldedGlob(host), who.nick, who.name, who.host);
  }

  /** The shortest user shows the difference as soon as there is a `?` that is not the only one in a user or host part
      of nothing but wildcards. */
  lemma ShortestTells(nick: string, user: string, host: string)
    requires Free({'!', '@'}, nick) && Free({'@'}, user) && user != "" && host != ""
    requires Marks(FoldedGlob(nick)) > 0 || !AtMostLone(FoldedGlob(user)) || !AtMostLone(FoldedGlob(host))
    ensures Tells(FoldedGlob(nick), FoldedGlob(user), FoldedGlob(host), Shortest(nick, user, host))
  {
    var n, u, h := FoldedGlob(nick), FoldedGlob(user), FoldedGlob(host);
    var who := Shortest(nick, user, host);
    CleanParts(nick, user, host);
    ShortestUser(nick, user, host);
    ShortestMatches(nick, user, host);
    if DocumentedMatches(Whole(n, u, h), Fold(RenderUserInfo(who))) { ShortestExact(n, u, h); }
  }

  // ----- A wildcard of the nickname part runs past an `@` -----

  /** How many literals stand before the first `?`. */
  function MarkAt(g: seq<Glob>): nat {
    if g == [] || g[0].AtMostOne? then 0 else (if g[0].Lit? then 1 else 0) + MarkAt(g[1..])
  }

  /** A documented match of the literals with just one `@` put in between them is only possible at the `?`. */
  lemma {:induction false} OnlyAtMark(g: seq<Glob>, l: string, r: string)
    requires Literals(g) == l + r && Free({'@'}, l) && Free({'@'}, r) && Marks(g) == 1
    requires DocumentedMatches(g, l + "@" + r)
    ensures MarkAt(g) == |l|
  {
    var s := l + "@" + r;
    MatchFirst(true, g, s);
    var k :| FirstTakes(true, g, s, k);
    DocumentedLength(g[1..], s[k..]);
    if g[0].Lit? {
      assert s[..k] == [g[0].c] && s[0] == g[0].c;
      assert (l + r)[0] == g[0].c && g[0].c != '@';
      assert s[|l|] == '@';
      assert s[1..] == l[1..] + "@" + r && (l + r)[1..] == l[1..] + r;
      OnlyAtMark(g[1..], l[1..], r);
    } else if g[0].Many? {
      assert s[0..] == s;
      OnlyAtMark(g[1..], l, r);
    } else {
      ExactLiterals(g[1..], s[k..]);
      TailDiffers(l, r);
    }
  }

  lemma TailDiffers(l: string, r: string)
    requires Free({'@'}, l) && Free({'@'}, r)
    ensures (l + "@" + r)[1..] == l + r ==> l == ""
  {
    if l != "" {
      assert (l + "@" + r)[1..][|l| - 1] == '@';
      assert (l + r)[|l| - 1] != '@';
    }
  }

  lemma {:induction false} ExactLiterals(g: seq<Glob>, s: string)
    requires DocumentedMatches(g, s) && Marks(g) == 0 && |s| == |Literals(g)|
    ensures s == Literals(g)
  {
    if g != [] {
      MatchFirst(true, g, s);
      var k :| FirstTakes(true, g, s, k);
      DocumentedLength(g[1..], s[k..]);
      ExactLiterals(g[1..], s[k..]);
      assert s == s[..k] + s[k..];
    }
  }

  /** When wildcards do not come first, there is one behind a literal. */
  lemma {:induction false} WildBehind(g: seq<Glob>) returns (a: seq<Glob>, x: Glob, b: seq<Glob>)
    requires !WildFirst(g)
    ensures g == a + [x] + b && !x.Lit? && Literals(a) != ""
  {
    if g[0].Lit? {
      a, x, b := SomeWild(g);
      assert a != [] && a[0] == g[0];
    } else {
      var c;
      c, x, b := WildBehind(g[1..]);
      a := [g[0]] + c;
      assert a[1..] == c;
    }
  }

  /** When the wildcards do not stand together, there is a star with literals between it and the `?`. */
  lemma {:induction false} StarApart(g: seq<Glob>) returns (a: seq<Glob>, b: seq<Glob>)
    requires Marks(g) == 1 && !OneGroup(g)
    ensures g == a + [Many] + b && |Literals(a)| != MarkAt(g)
  {
    if g[0].Lit? {
      var c;
      c, b := StarApart(g[1..]);
      a := [g[0]] + c;
      assert a[1..] == c;
    } else if MarkAt(g) > 0 {
      a, b := [], g[1..];
    } else {
      var x;
      a, x, b := WildBehind(g);
      MarkInFront(g, a, x, b);
    }
  }

  /** Behind a literal there is no `?` when the only one stands before all literals. */
  lemma {:induction false} MarkInFront(g: seq<Glob>, a: seq<Glob>, x: Glob, b: seq<Glob>)
    requires g == a + [x] + b && Literals(a) != "" && Marks(g) == 1 && MarkAt(g) == 0
    ensures !x.AtMostOne?
  {
    if g[0].AtMostOne? {
      assert a[0] == g[0] && g[1..] == a[1..] + [x] + b;
      NoMarkIn(g[1..], |a| - 1);
    } else {
      assert a[0] == g[0] && g[1..] == a[1..] + [x] + b;
      MarkInFront(g[1..], a[1..], x, b);
    }
  }

  lemma {:induction false} NoMarkIn(g: seq<Glob>, i: nat)
    requires Marks(g) == 0 && i < |g|
    ensures !g[i].AtMostOne?
  {
    if i > 0 { NoMarkIn(g[1..], i - 1); }
  }

  /** A star in front may take one character, not an `@` as well, when the `?` stands behind a literal. */
  lemma {:induction false} NotInFront(g: seq<Glob>, c: char, q: string)
    requires Literals(g) == q && Free({'@'}, q) && Marks(g) == 1 && MarkAt(g) > 0
    requires q != "" ==> c != q[0]
    ensures !DocumentedMatches(g, [c] + "@" + q)
  {
    var s := [c] + "@" + q;
    if DocumentedMatches(g, s) {
      MatchFirst(true, g, s);
      var k :| FirstTakes(true, g, s, k);
      DocumentedLength(g[1..], s[k..]);
      if g[0].Many? {
        if k == 0 {
          assert s[0..] == s;
          NotInFront(g[1..], c, q);
        } else {
          assert s[1..] == "" + "@" + q;
          OnlyAtMark(g[1..], "", q);
        }
      }
    }
  }

  lemma CutEarly(l: string, r: string, q: string)
    requires Free({'@'}, l) && Free({'@'}, r) && q + "@" <= l + "@" + r
    ensures q == l
  {
    var p := l + "@" + r;
    assert p[|q|] == (q + "@")[|q|] == '@';
    assert forall k | 0 <= k < |q| :: p[k] == (q + "@")[k] == q[k];
    assert forall k | 0 <= k < |r| :: p[|l| + 1 + k] == r[k];
    assert forall k | 0 <= k < |l| :: p[k] == l[k];
    assert |q| == |l|;
  }

  lemma CountSuffix(c: char, f: string, k: nat)
    requires k <= |f|
    ensures Count(c, f[k..]) <= Count(c, f)
  {
    assert f == f[..k] + f[k..];
    CountAppend(c, f[..k], f[k..]);
  }

  lemma LaterCut(l: string, r: string, f: string, q: string, c: string)
    requires l + "@" + r + "@" + f == q + "@" + c
    requires Free({'!', '@'}, l) && Free({'@'}, r) && '!' in q && Count('@', c) >= Count('@', f)
    ensures q == l + "@" + r && c == f
  {
    var t, p := q + "@" + c, l + "@" + r;
    if |q| < |p| {
      assert q + "@" == t[..|q| + 1] == (p + "@" + f)[..|q| + 1] == p[..|q| + 1];
      CutEarly(l, r, q);
    } else if |q| > |p| {
      var k := |q| - |p| - 1;
      assert t[|p| + 1..] == f && t[|q|..] == "@" + c && f[k..] == t[|q|..];
      CountAppend('@', "@", c);
      CountSuffix('@', f, k);
    } else {
      assert q == t[..|q|] == p;
      assert c == t[|q| + 1..] == f;
    }
  }

  lemma FoldHalves(l: string, r: string)
    requires Fold(l + r) == l + r
    ensures Fold(l) == l && Fold(r) == r
  {
    FoldAppend(l, r);
    assert (l + r)[..|l|] == l && (l + r)[|l|..] == r;
    assert (Fold(l) + Fold(r))[..|l|] == Fold(l) && (Fold(l) + Fold(r))[|l|..] == Fold(r);
  }

  lemma NickText(l: string, r: string, y: string, f: string)
    requires Free({'!', '@'}, l) && Fold(l) == l && Fold(r) == r && Fold(y) == y && Fold(f) == f
    ensures var who := UserInfo(l, "", r + "!" + y + "@" + f);
            Splittable(who) && Fold(RenderUserInfo(who)) == l + "@" + r + "!" + y + "@" + f
  {
    var who := UserInfo(l, "", r + "!" + y + "@" + f);
    assert RenderUserInfo(who) == l + "@" + (r + "!" + y + "@" + f);
    FoldAppend(l + "@", r + "!" + y + "@" + f);
    FoldAppend(l, "@");
    FoldCompleted(r, y, f);
    assert Fold("@") == "@";
    assert l + "@" + (r + "!" + y + "@" + f) == l + "@" + r + "!" + y + "@" + f;
  }

  /** The user whose hostmask has an `@` in place of a wildcard of the nickname part, and otherwise only literals. */
  function AtInNick(l: string, r: string, u: seq<Glob>, h: seq<Glob>): UserInfo {
    UserInfo(l, "", r + "!" + Literals(u) + "@" + Literals(h))
  }

  /** Where the documented reading has to cut this user's hostmask. */
  lemma NickCut(n: seq<Glob>, u: seq<Glob>, h: seq<Glob>, l: string, r: string, y: string, f: string)
    returns (x: string, w: string)
    requires Free({'!', '@'}, l) && Free({'@'}, r) && Free({'@'}, y)
    requires Count('@', f) <= Count('@', Literals(h))
    requires DocumentedMatches(Whole(n, u, h), l + "@" + r + "!" + y + "@" + f)
    ensures x + "!" + w == l + "@" + r + "!" + y
    ensures DocumentedMatches(n, x) && DocumentedMatches(u, w) && DocumentedMatches(h, f)
  {
    var c;
    x, w, c := WholeSplit(true, n, u, h, l + "@" + r + "!" + y + "@" + f);
    LiteralsCount(true, h, c, '@');
    assert l + "@" + r + "!" + y == l + "@" + (r + "!" + y);
    assert (x + "!" + w)[|x|] == '!';
    LaterCut(l, r + "!" + y, f, x + "!" + w, c);
  }

  /** What the documented reading makes of this user: each part has to match its own literals. */
  lemma AtInNickSplit(n: seq<Glob>, u: seq<Glob>, h: seq<Glob>, l: string, r: string)
    requires Free({'!', '@'}, l) && Free({'!', '@'}, r) && Free({'@'}, Literals(u))
    requires DocumentedMatches(Whole(n, u, h), l + "@" + r + "!" + Literals(u) + "@" + Literals(h))
    ensures DocumentedMatches(n, l + "@" + r) && Marks(u) == 0 && Marks(h) == 0
  {
    var x, w := NickCut(n, u, h, l, r, Literals(u), Literals(h));
    LiteralsCount(true, u, w, '!');
    SameCut('!', l + "@" + r, Literals(u), x, w);
    DocumentedLength(u, w);
    DocumentedLength(h, Literals(h));
  }

  lemma {:induction false} WildTakes(g: seq<Glob>, a: seq<Glob>, x: Glob, b: seq<Glob>, c: char)
    requires g == a + [x] + b && !x.Lit?
    ensures GlobMatches(g, Literals(a) + [c] + Literals(b))
  {
    LiteralsMatch(a);
    LiteralsMatch(b);
    assert [x][1..] == [] && [c][1..] == [];
    assert FirstTakes(false, [x], [c], 1);
    MatchFirst(false, [x], [c]);
    MatchJoin(false, a, [x], Literals(a), [c]);
    MatchJoin(false, a + [x], b, Literals(a) + [c], Literals(b));
  }

  /** A wildcard of the nickname part that runs past an `@`. */
  lemma AtInNickMatches(n: seq<Glob>, u: seq<Glob>, h: seq<Glob>, a: seq<Glob>, x: Glob, b: seq<Glob>)
    requires n == a + [x] + b && !x.Lit?
    requires Clean(n, u, h)
    ensures var l, r := Literals(a), Literals(b);
            var who := AtInNick(l, r, u, h);
            && Literals(n) == l + r && Free({'!', '@'}, l) && Free({'!', '@'}, r)
            && Splittable(who) && Fold(RenderUserInfo(who)) == l + "@" + r + "!" + Literals(u) + "@" + Literals(h)
            && GlobMatches(Whole(n, u, h), Fold(RenderUserInfo(who)))
  {
    var l, r := Literals(a), Literals(b);
    LiteralsSplit(a, x, b);
    FreeParts({'!', '@'}, l, r);
    FoldHalves(l, r);
    NickText(l, r, Literals(u), Literals(h));
    WildTakes(n, a, x, b, '@');
    LiteralsMatch(u);
    LiteralsMatch(h);
    WholeJoin(false, n, u, h, l + "@" + r, Literals(u), Literals(h));
  }

  /** With a wildcard in the nickname part a `?` is noticed, unless it is the only one and stands with all wildcards of
      that part. */
  lemma NickTells(n: seq<Glob>, u: seq<Glob>, h: seq<Glob>) returns (who: UserInfo)
    requires Clean(n, u, h) && !AllLiteral(n) && Marks(n) + Marks(u) + Marks(h) > 0
    requires !(Marks(u) == 0 && Marks(h) == 0 && Together(n))
    ensures Tells(n, u, h, who)
  {
    var a, x, b;
    if Marks(u) == 0 && Marks(h) == 0 && Marks(n) == 1 {
      a, b := StarApart(n);
      x := Many;
    } else {
      a, x, b := SomeWild(n);
    }
    var l, r := Literals(a), Literals(b);
    AtInNickMatches(n, u, h, a, x, b);
    who := AtInNick(l, r, u, h);
    if DocumentedMatches(Whole(n, u, h), Fold(RenderUserInfo(who))) {
      AtInNickSplit(n, u, h, l, r);
      DocumentedLength(n, l + "@" + r);
      OnlyAtMark(n, l, r);
    }
  }

  // ----- A star of the user part runs past an `@` -----

  lemma {:induction false} AllLiteralFirst(a: seq<Glob>, b: seq<Glob>)
    requires AllLiteral(a) && Literals(b) == []
    ensures LiteralsFirst(a + b)
  {
    if a == [] {
      assert a + b == b;
    } else {
      assert (a + b)[1..] == a[1..] + b;
      AllLiteralFirst(a[1..], b);
    }
  }

  /** The name and the start of the host that a star in the user part can be made to cover. */
  function Covered(u: seq<Glob>, l: string, r: string): (string, string) {
    if LiteralsFirst(u) || r == "" then (l + "X", "X" + r) else (l + (if r[0] == 'X' then "Y" else "X"), r)
  }

  /** Behind a nickname without wildcards only the delimiter between user and host is open. */
  lemma UserSplit(n: seq<Glob>, u: seq<Glob>, h: seq<Glob>, w: string) returns (b: string, z: string)
    requires AllLiteral(n) && DocumentedMatches(Whole(n, u, h), Literals(n) + "!" + w)
    ensures w == b + "@" + z && DocumentedMatches(u, b) && DocumentedMatches(h, z)
  {
    var t := Literals(n) + "!" + w;
    var a;
    a, b, z := WholeSplit(true, n, u, h, t);
    ExactIsMatch(n, a);
    LiteralOnly(n, a);
    assert t == a + "!" + (b + "@" + z);
    assert t[|a| + 1..] == w == b + "@" + z;
  }

  lemma NotEmpty(h: seq<Glob>)
    requires Lone(h)
    ensures !DocumentedMatches(h, "")
    ensures !HasStar(h) ==> forall z | |z| > 1 :: !DocumentedMatches(h, z)
  {
    forall z | DocumentedMatches(h, z)
      ensures z != "" && (!HasStar(h) ==> |z| <= 1)
    {
      DocumentedLength(h, z);
      ExactIsMatch(h, z);
      if !HasStar(h) { NoStarLength(h, z); }
    }
  }

  lemma MissedLiteral(u: seq<Glob>, l: string, r: string)
    requires Literals(u) == l + r && r != ""
    ensures !DocumentedMatches(u, l + if r[0] == 'X' then "Y" else "X")
  {
    var d, x := r[0], if r[0] == 'X' then "Y" else "X";
    CountAppend(d, l, r);
    CountAppend(d, l, x);
    assert Count(d, r) > 0 && Count(d, x) == 0;
    if DocumentedMatches(u, l + x) {
      LiteralsCount(true, u, l + x, d);
    }
  }

  lemma HostCut(n: seq<Glob>, u: seq<Glob>, h: seq<Glob>, l: string, r: string)
    requires AllLiteral(n) && Lone(h)
    requires Literals(u) == l + r && Free({'@'}, l) && Free({'@'}, r)
    requires if LiteralsFirst(u) then !HasStar(h) else r != ""
    ensures var (p, q) := Covered(u, l, r);
            !DocumentedMatches(Whole(n, u, h), Literals(n) + "!" + (p + "@" + q + "@"))
  {
    var (p, q) := Covered(u, l, r);
    NotEmpty(h);
    if !LiteralsFirst(u) { MissedLiteral(u, l, r); }
    assert !DocumentedMatches(u, p) || !DocumentedMatches(h, q + "@");
    if DocumentedMatches(Whole(n, u, h), Literals(n) + "!" + (p + "@" + q + "@")) {
      var b, z := UserSplit(n, u, h, p + "@" + q + "@");
      TwoCuts(p, q, b, z);
    }
  }

  lemma TwoCuts(p: string, q: string, b: string, z: string)
    requires p + "@" + q + "@" == b + "@" + z && Free({'@'}, p) && Free({'@'}, q) && z != ""
    ensures b == p && z == q + "@"
  {
    var w := b + "@" + z;
    assert w[|b|] == '@';
    assert forall k | 0 <= k < |p| :: w[k] == p[k];
    assert forall k | 0 <= k < |q| :: w[|p| + 1 + k] == q[k];
    assert |b| == |p|;
    assert w[..|b|] == b == p && w[|b| + 1..] == z == q + "@";
  }

  /** When the literals do not all come first, some stand behind the first star. */
  lemma BehindStar(u: seq<Glob>, a: seq<Glob>, b: seq<Glob>)
    requires AtMostLone(u) && u == a + [Many] + b && !HasStar(a) && Marks(u) == Marks(a) + Marks(b)
    ensures !LiteralsFirst(u) ==> Literals(b) != ""
  {
    if Marks(u) == 0 && Literals(b) == "" {
      NoWildcards(a);
      StarInFront(b);
      AllLiteralFirst(a, [Many] + b);
      Regroup(a, [Many], b);
    }
  }

  lemma StarInFront(b: seq<Glob>)
    ensures Literals([Many] + b) == Literals(b)
  {
    assert ([Many] + b)[1..] == b;
  }

  lemma StarUser(n: seq<Glob>, u: seq<Glob>, h: seq<Glob>, p: string, q: string)
    requires GlobMatches(u, p + "@" + q) && Literals(h) == ""
    ensures GlobMatches(Whole(n, u, h), Literals(n) + "!" + (p + "@" + q + "@"))
  {
    LiteralsMatch(n);
    LiteralsMatch(h);
    WholeJoin(false, n, u, h, Literals(n), p + "@" + q, "");
    assert Literals(n) + "!" + (p + "@" + q) + "@" + "" == Literals(n) + "!" + (p + "@" + q + "@");
  }

  /** A star in the user part may run past an `@`, and then the host may be empty. */
  lemma StarInUser(n: seq<Glob>, u: seq<Glob>, h: seq<Glob>) returns (who: UserInfo)
    requires AllLiteral(n) && AtMostLone(u) && Lone(h) && HasStar(u)
    requires !(LiteralsFirst(u) && HasStar(h))
    requires Free({'!', '@'}, Literals(n)) && Free({'@'}, Literals(u))
    requires Fold(Literals(n)) == Literals(n) && Fold(Literals(u)) == Literals(u)
    ensures Splittable(who) && GlobMatches(Whole(n, u, h), Fold(RenderUserInfo(who)))
    ensures !DocumentedMatches(Whole(n, u, h), Fold(RenderUserInfo(who)))
  {
    var a, b := StarSplit(u);
    var l, r := Literals(a), Literals(b);
    BehindStar(u, a, b);
    FreeParts({'@'}, l, r);
    FoldHalves(l, r);
    var (p, q) := Covered(u, l, r);
    who := UserInfo(Literals(n), p, q + "@");
    FoldCovered(u, l, r);
    UserText(Literals(n), p, q);
    UserMatches(a, b, u);
    StarUser(n, u, h, p, q);
    HostCut(n, u, h, l, r);
  }

  lemma UserMatches(a: seq<Glob>, b: seq<Glob>, u: seq<Glob>)
    requires u == a + [Many] + b
    ensures var (p, q) := Covered(u, Literals(a), Literals(b)); GlobMatches(u, p + "@" + q)
  {
    var l, r := Literals(a), Literals(b);
    var (p, q) := Covered(u, l, r);
    var s := if LiteralsFirst(u) || r == "" then "X@X" else if r[0] == 'X' then "Y@" else "X@";
    StarTakes(a, s, b);
    assert p + "@" + q == l + s + r;
  }

  lemma FoldCovered(u: seq<Glob>, l: string, r: string)
    requires Fold(l) == l && Fold(r) == r && Free({'@'}, l)
    ensures var (p, q) := Covered(u, l, r); Fold(p) == p && Fold(q) == q && Free({'@'}, p)
  {
    assert Fold("X") == "X" && Fold("Y") == "Y";
    FoldAppend(l, "X");
    FoldAppend(l, "Y");
    FoldAppend("X", r);
  }

  lemma UserText(x: string, p: string, q: string)
    requires Free({'!', '@'}, x) && Free({'@'}, p) && Fold(x) == x && Fold(p) == p && Fold(q) == q && p != ""
    ensures var who := UserInfo(x, p, q + "@");
            Splittable(who) && Fold(RenderUserInfo(who)) == x + "!" + (p + "@" + q + "@")
  {
    assert RenderUserInfo(UserInfo(x, p, q + "@")) == x + "!" + p + "@" + (q + "@");
    FoldCompleted(x, p, q + "@");
    FoldAppend(q, "@");
    assert Fold("@") == "@";
    assert x + "!" + p + "@" + (q + "@") == x + "!" + (p + "@" + q + "@");
  }

  lemma StarNeeded(u: seq<Glob>)
    requires AtMostLone(u) && !HasStar(u)
    ensures LiteralsFirst(u)
  {
    if Marks(u) == 0 {
      NoWildcards(u);
      AllLiteralFirst(u, []);
      assert u + [] == u;
    }
  }

  // ----- Masks without host -----

  /** A user whose name and host are covered by the user part of a mask without host. */
  lemma CoveredTells(n: seq<Glob>, u: seq<Glob>, h: seq<Glob>, p: string, q: string) returns (who: UserInfo)
    requires Clean(n, u, h) && h == [] && AllLiteral(n)
    requires Free({'@'}, p) && p != "" && Fold(p) == p && Fold(q) == q
    requires GlobMatches(u, p + "@" + q) && !DocumentedMatches(u, p + "@" + q)
    ensures Tells(n, u, h, who)
  {
    who := UserInfo(Literals(n), p, q + "@");
    UserText(Literals(n), p, q);
    StarUser(n, u, h, p, q);
    if DocumentedMatches(Whole(n, u, h), Literals(n) + "!" + (p + "@" + q + "@")) {
      var b, z := UserSplit(n, u, h, p + "@" + q + "@");
      SameEnd(p + "@" + q, b, z);
    }
  }

  /** Without host, and with wildcards only in the user part. */
  lemma UserTells(n: seq<Glob>, u: seq<Glob>, h: seq<Glob>) returns (who: UserInfo)
    requires Clean(n, u, h) && h == [] && AllLiteral(n)
    requires Marks(u) > 0 && !Together(u) && !(Marks(u) == 2 && WildFirst(u))
    ensures Tells(n, u, h, who)
  {
    if Marks(u) == 1 {
      who := ApartTells(n, u, h);
    } else if !WildFirst(u) {
      var a, x, b := WildBehind(u);
      var l, r := Literals(a), Literals(b);
      LiteralsSplit(a, x, b);
      FreeParts({'@'}, l, r);
      FoldHalves(l, r);
      WildTakes(u, a, x, b, '@');
      if DocumentedMatches(u, l + "@" + r) { DocumentedLength(u, l + "@" + r); }
      who := CoveredTells(n, u, h, l, r);
    } else {
      var s := "X" + "@" + Literals(u);
      assert s[2..] == Literals(u);
      WildFirstMatches(false, u, s);
      if DocumentedMatches(u, s) { DocumentedLength(u, s); }
      assert Fold("X") == "X";
      who := CoveredTells(n, u, h, "X", Literals(u));
    }
  }

  lemma ApartTells(n: seq<Glob>, u: seq<Glob>, h: seq<Glob>) returns (who: UserInfo)
    requires Clean(n, u, h) && h == [] && AllLiteral(n) && Marks(u) == 1 && !OneGroup(u)
    ensures Tells(n, u, h, who)
  {
    var a, b := StarApart(u);
    var l, r := Literals(a), Literals(b);
    LiteralsSplit(a, Many, b);
    FreeParts({'@'}, l, r);
    FoldHalves(l, r);
    if l != "" {
      StarTakes(a, "@", b);
      if DocumentedMatches(u, l + "@" + r) { OnlyAtMark(u, l, r); }
      who := CoveredTells(n, u, h, l, r);
    } else {
      who := FrontTells(n, u, h, a, b);
    }
  }

  lemma FrontTells(n: seq<Glob>, u: seq<Glob>, h: seq<Glob>, a: seq<Glob>, b: seq<Glob>) returns (who: UserInfo)
    requires Clean(n, u, h) && h == [] && AllLiteral(n) && Marks(u) == 1 && MarkAt(u) > 0
    requires u == a + [Many] + b && Literals(a) == "" && Literals(u) == Literals(b)
    ensures Tells(n, u, h, who)
  {
    var q := Literals(b);
    var c := if q != "" && q[0] == 'X' then 'Y' else 'X';
    FrontMatches(a, b, c);
    NotInFront(u, c, q);
    FoldOne(c);
    who := CoveredTells(n, u, h, [c], q);
  }

  lemma FrontMatches(a: seq<Glob>, b: seq<Glob>, c: char)
    requires Literals(a) == ""
    ensures GlobMatches(a + [Many] + b, [c] + "@" + Literals(b))
  {
    StarTakes(a, [c] + "@", b);
    assert "" + ([c] + "@") + Literals(b) == [c] + "@" + Literals(b);
  }

  lemma FoldOne(c: char)
    requires c == 'X' || c == 'Y'
    ensures Fold([c]) == [c]
  {}

  lemma SameEnd(w: string, b: string, z: string)
    requires w + "@" == b + "@" + z && z == ""
    ensures w == b
  {
    assert (w + "@")[..|w|] == w && (b + "@" + z)[..|b|] == b;
  }

  /** Without host, a `?` of the nickname part is noticed when the user part has a star. */
  lemma BothTell(n: seq<Glob>, u: seq<Glob>, h: seq<Glob>) returns (who: UserInfo)
    requires Clean(n, u, h) && h == [] && Marks(n) > 0 && Marks(u) == 0 && !AllLiteral(u)
    ensures Tells(n, u, h, who)
  {
    if !HasStar(u) { NoWildcards(u); }
    var a, b := StarSplit(u);
    var l, r := Literals(a), Literals(b);
    FreeParts({'@'}, l, r);
    FoldHalves(l, r);
    StarTakes(a, "X@", b);
    assert l + "X@" + r == (l + "X") + "@" + r;
    who := UserInfo(Literals(n), l + "X", r + "@");
    FoldedX(l);
    UserText(Literals(n), l + "X", r);
    StarUser(n, u, h, l + "X", r);
    NickSplit(n, u, h, l, r);
  }

  lemma FoldedX(l: string)
    requires Fold(l) == l
    ensures Fold(l + "X") == l + "X"
  {
    FoldAppend(l, "X");
    assert Fold("X") == "X";
  }

  lemma NickSplit(n: seq<Glob>, u: seq<Glob>, h: seq<Glob>, l: string, r: string)
    requires Free({'!', '@'}, Literals(n)) && h == [] && Marks(n) > 0 && Literals(u) == l + r
    ensures !DocumentedMatches(Whole(n, u, h), Literals(n) + "!" + (l + "X" + "@" + r + "@"))
  {
    var x, w := Literals(n), l + "X" + "@" + r;
    var t := x + "!" + (w + "@");
    if DocumentedMatches(Whole(n, u, h), t) {
      var a, b, c := WholeSplit(true, n, u, h, t);
      assert t == x + "!" + w + "@";
      SameEnd(x + "!" + w, a + "!" + b, c);
      LiteralsCount(true, u, b, '!');
      CountAppend('!', l, r);
      CountAppend('!', l + "X" + "@", r);
      CountAppend('!', l, "X@");
      assert l + "X" + "@" == l + "X@";
      SameCut('!', x, w, a, b);
      DocumentedLength(n, a);
    }
  }

  // ----- Exactly when -----

  /** Some user shows the difference, unless the `?` is one of those nobody notices. */
  lemma Noticed(nick: string, user: string, host: string) returns (who: UserInfo)
    requires Free({'!', '@'}, nick) && Free({'@'}, user)
    requires var n, u, h := FoldedGlob(nick), FoldedGlob(user), FoldedGlob(host);
             Marks(n) + Marks(u) + Marks(h) > 0 && !Unnoticed(n, u, h)
    ensures Tells(FoldedGlob(nick), FoldedGlob(user), FoldedGlob(host), who)
  {
    var n, u, h := FoldedGlob(nick), FoldedGlob(user), FoldedGlob(host);
    CleanParts(nick, user, host);
    EmptyGlobs(user);
    EmptyGlobs(host);
    LiteralSelfIf(n);
    if user != "" && host != "" && (Marks(n) > 0 || !AtMostLone(u) || !AtMostLone(h)) {
      who := Shortest(nick, user, host);
      ShortestTells(nick, user, host);
    } else if !AllLiteral(n) && !(Marks(u) == 0 && Marks(h) == 0 && Together(n)) {
      who := NickTells(n, u, h);
    } else if host == "" {
      if AllLiteral(n) { who := UserTells(n, u, h); } else { who := BothTell(n, u, h); }
    } else {
      if !HasStar(u) { StarNeeded(u); }
      who := StarInUser(n, u, h);
    }
  }

  lemma LiteralSelfIf(n: seq<Glob>)
    ensures AllLiteral(n) ==> Marks(n) == 0
  {
    if AllLiteral(n) { LiteralSelf(true, n, ""); }
  }

  /** For every mask with a `?` that can be noticed there is a user who is matched, but not as documented. */
  lemma QuestionMarkMatters(nick: string, user: Option<string>, host: Option<string>) returns (who: UserInfo)
    requires Parts(nick, user, host)
    requires var n, u, h := FoldedGlob(nick), FoldedGlob(OrStar(user)), FoldedGlob(OrStar(host));
             Marks(n) + Marks(u) + Marks(h) > 0 && !Unnoticed(n, u, h)
    ensures var m := MaskOf(nick, user, host); Splittable(who) && MatchMask([m], who) && !OneCharacter(m, who)
  {
    StarFree();
    who := Noticed(nick, OrStar(user), OrStar(host));
    MaskParts(nick, user, host);
    OneMask(MaskOf(nick, user, host), who);
  }

  /** Exactly when a mask means what is documented about `?`, for every mask and every user the client can see: when it
      has no `?`, or only ones that nobody notices. */
  lemma QuestionMarkExactly(nick: string, user: Option<string>, host: Option<string>)
    requires Parts(nick, user, host)
    ensures var m := MaskOf(nick, user, host);
            var n, u, h := FoldedGlob(nick), FoldedGlob(OrStar(user)), FoldedGlob(OrStar(host));
            (forall who | Splittable(who) :: MatchMask([m], who) <==> OneCharacter(m, who))
            <==> Marks(n) + Marks(u) + Marks(h) == 0 || Unnoticed(n, u, h)
  {
    var m := MaskOf(nick, user, host);
    var n, u, h := FoldedGlob(nick), FoldedGlob(OrStar(user)), FoldedGlob(OrStar(host));
    WholeMarks(n, u, h);
    if Marks(n) + Marks(u) + Marks(h) == 0 || Unnoticed(n, u, h) {
      forall who | Splittable(who)
        ensures MatchMask([m], who) <==> OneCharacter(m, who)
      {
        Agrees(nick, user, host, who);
      }
    } else {
      var who := QuestionMarkMatters(nick, user, host);
    }
  }

  lemma Agrees(nick: string, user: Option<string>, host: Option<string>, who: UserInfo)
    requires Parts(nick, user, host) && Splittable(who)
    requires var n, u, h := FoldedGlob(nick), FoldedGlob(OrStar(user)), FoldedGlob(OrStar(host));
             Marks(Whole(n, u, h)) == 0 || Unnoticed(n, u, h)
    ensures MatchMask([MaskOf(nick, user, host)], who) <==> OneCharacter(MaskOf(nick, user, host), who)
  {
    var t := Fold(RenderUserInfo(who));
    var n, u, h := FoldedGlob(nick), FoldedGlob(OrStar(user)), FoldedGlob(OrStar(host));
    MaskParts(nick, user, host);
    OneMask(MaskOf(nick, user, host), who);
    if Marks(Whole(n, u, h)) == 0 {
      WithoutMarks(Whole(n, u, h), t);
    } else if DocumentedMatches(Whole(n, u, h), t) {
      ExactIsMatch(Whole(n, u, h), t);
    } else if GlobMatches(Whole(n, u, h), t) {
      StarFree();
      CleanParts(nick, OrStar(user), OrStar(host));
      NotNoticed(n, u, h, who);
    }
  }

  lemma MarkedNickname()
    ensures FoldedGlob("a?") == [Lit('A'), AtMostOne] && FoldedGlob("*") == [Many]
  {
    FoldedStep("a?");
    FoldedStep("?");
    FoldedStep("*");
    assert "a?"[1..] == "?" && "?"[1..] == "" && "*"[1..] == "";
  }

  lemma MarkedShortest()
    ensures Literals([Lit('A'), AtMostOne]) == "A" && Marks([Lit('A'), AtMostOne]) == 1
    ensures Literals([Many]) == [] && Marks([Many]) == 0
  {
    assert [Lit('A'), AtMostOne][1..] == [AtMostOne] && [Many][1..] == [] && [AtMostOne][1..] == [];
    assert Literals([AtMostOne]) == [] && Marks([AtMostOne]) == 1;
  }

  /** The smallest example: the nickname `a` matches the mask `a?`. */
  lemma QuestionMarkExample()
    ensures var who := UserInfo("A", "X", "X"); MatchMask(["a?"], who) && !OneCharacter("a?", who)
  {
    MarkedNickname();
    MarkedShortest();
    ShortestTells("a?", "*", "*");
    assert MaskOf("a?", None, None) == "a?";
    MaskParts("a?", None, None);
    OneMask("a?", UserInfo("A", "X", "X"));
  }
}
