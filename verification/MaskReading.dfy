/** How compiled masks read escapes (src/Client/Mask.hs), and exactly where that differs from what is documented: at
    bars. */
module MaskReadings {
  import opened Text
  import opened UserInfos
  import opened Identifiers
  import opened Masks
  import opened Globs

  predicate IsWild(c: char) {
    c == '*' || c == '?'
  }

  predicate IsSlash(c: char) {
    c == '\\' || c == '|'
  }

  /** The documented mask language, read from the text as it was written: a backslash also makes a bar literal. The
      literals are folded, as the texts are that they are compared with. */
  function DocumentedGlob(s: string): seq<Glob> {
    if s == [] then []
    else if |s| >= 2 && s[0] == '\\' && (IsWild(s[1]) || IsSlash(s[1])) then
      [Lit(FoldChar(s[1]))] + DocumentedGlob(s[2..])
    else if s[0] == '*' then [Many] + DocumentedGlob(s[1..])
    else if s[0] == '?' then [AtMostOne] + DocumentedGlob(s[1..])
    else [Lit(FoldChar(s[0]))] + DocumentedGlob(s[1..])
  }

  /** Read from the left, pairing each backslash with the bar or backslash after it, every run of bars and backslashes
      leaves at most one of its characters over, and if that is a bar the run is not followed by a wildcard. `bar` tells
      that the run being read has left over a bar. */
  predicate BarsPair(s: string, bar: bool)
    decreases |s|
  {
    if s == [] then true
    else if |s| >= 2 && s[0] == '\\' && IsSlash(s[1]) then BarsPair(s[2..], bar)
    else if s[0] == '\\' then !bar && BarsPair(if |s| >= 2 && IsWild(s[1]) then s[2..] else s[1..], false)
    else if s[0] == '|' then !bar && BarsPair(s[1..], true)
    else !(bar && IsWild(s[0])) && BarsPair(s[1..], false)
  }

  lemma FoldedChars(c: char)
    ensures FoldChar(c) == '\\' <==> IsSlash(c)
    ensures FoldChar(c) == '*' <==> c == '*'
    ensures FoldChar(c) == '?' <==> c == '?'
  {}

  /** What the compiler makes of a mask: the text is folded before it is read. */
  function FoldedGlob(s: string): seq<Glob> {
    ParseGlob(Fold(s))
  }

  /** How the folded text reads, one step at a time. */
  lemma FoldedStep(s: string)
    requires s != []
    ensures FoldedGlob(s) ==
            if IsSlash(s[0]) then
              if |s| >= 2 && IsWild(s[1]) then [Lit(s[1])] + FoldedGlob(s[2..])
              else if |s| >= 2 && IsSlash(s[1]) then [Lit('\\')] + FoldedGlob(s[2..])
              else [Lit('\\')] + FoldedGlob(s[1..])
            else if s[0] == '*' then [Many] + FoldedGlob(s[1..])
            else if s[0] == '?' then [AtMostOne] + FoldedGlob(s[1..])
            else [Lit(FoldChar(s[0]))] + FoldedGlob(s[1..])
  {
    FoldedChars(s[0]);
    assert Fold(s)[1..] == Fold(s[1..]);
    if |s| >= 2 {
      FoldedChars(s[1]);
      assert Fold(s)[2..] == Fold(s[2..]);
    }
  }

  /** Any bar or backslash reads the same after folding. */
  lemma SlashAlike(x: char, s: string)
    requires IsSlash(x)
    ensures FoldedGlob([x] + s) == FoldedGlob("|" + s)
  {
    assert Fold([x] + s) == Fold("|" + s);
  }

  /** How many characters the first element takes, and which element it is. */
  function StepSize(s: string): nat
    requires s != []
  {
    if |s| >= 2 && s[0] == '\\' && (IsWild(s[1]) || IsSlash(s[1])) then 2 else 1
  }

  function FirstRead(s: string): Glob
    requires s != []
  {
    if StepSize(s) == 2 then Lit(FoldChar(s[1]))
    else if s[0] == '*' then Many
    else if s[0] == '?' then AtMostOne
    else Lit(FoldChar(s[0]))
  }

  lemma DocumentedStep(s: string)
    requires s != []
    ensures StepSize(s) <= |s| && DocumentedGlob(s) == [FirstRead(s)] + DocumentedGlob(s[StepSize(s)..])
  {}

  /** How many characters a text has that escapes are about; backslashes count twice. */
  function Heavy(s: string): nat {
    if s == [] then 0 else (if s[0] == '\\' then 2 else if IsWild(s[0]) then 1 else 0) + Heavy(s[1..])
  }

  function Weight(g: seq<Glob>): nat {
    Heavy(Literals(g))
  }

  lemma {:induction false} HeavyAppend(a: string, b: string)
    ensures Heavy(a + b) == Heavy(a) + Heavy(b)
  {
    if a == [] {
      assert a + b == b;
    } else {
      assert (a + b)[1..] == a[1..] + b;
      HeavyAppend(a[1..], b);
    }
  }

  lemma WeightCons(x: Glob, g: seq<Glob>)
    ensures Weight([x] + g)
         == Weight(g) + if !x.Lit? then 0 else if x.c == '\\' then 2 else if IsWild(x.c) then 1 else 0
  {
    assert ([x] + g)[1..] == g;
    if x.Lit? {
      var l := [x.c] + Literals(g);
      assert Literals([x] + g) == l && l[0] == x.c && l[1..] == Literals(g);
    } else {
      assert [] + Literals(g) == Literals(g);
    }
  }

  /** The folded reading is the documented one, or has less of the characters that escapes are about. */
  predicate Alike(same: bool, folded: seq<Glob>, documented: seq<Glob>) {
    if same then folded == documented else Weight(folded) < Weight(documented)
  }

  lemma AlikeCons(same: bool, x: Glob, f: seq<Glob>, d: seq<Glob>)
    requires Alike(same, f, d)
    ensures Alike(same, [x] + f, [x] + d)
  {
    WeightCons(x, f);
    WeightCons(x, d);
  }

  /** The two readings of a text, from a place where no bar is left over. */
  lemma {:induction false} TwoReadings(s: string)
    ensures Alike(BarsPair(s, false), FoldedGlob(s), DocumentedGlob(s))
    decreases |s|, 2
  {
    if s != [] {
      FoldedStep(s);
      DocumentedStep(s);
      FoldedChars(s[0]);
      var n := StepSize(s);
      if s[0] == '|' {
        AfterBar(s[1..]);
        assert "|" + s[1..] == s;
      } else {
        if n == 2 { FoldedChars(s[1]); }
        TwoReadings(s[n..]);
        AlikeCons(BarsPair(s[n..], false), FirstRead(s), FoldedGlob(s[n..]), DocumentedGlob(s[n..]));
      }
    }
  }

  /** The same where a bar is left over, which the documented reading has read already. */
  lemma {:induction false} AfterBar(s: string)
    ensures Alike(BarsPair(s, true), FoldedGlob("|" + s), [Lit('\\')] + DocumentedGlob(s))
    decreases |s|, 1
  {
    var bar, t := Lit('\\'), "|" + s;
    FoldedStep(t);
    assert t[1..] == s;
    if s != [] {
      assert t[1] == s[0] && t[2..] == s[1..];
      if s[0] == '\\' && |s| >= 2 && IsSlash(s[1]) {
        AfterBar(s[2..]);
        PairAfterBar(s);
        AlikeCons(BarsPair(s[2..], true), bar, FoldedGlob("|" + s[2..]), [bar] + DocumentedGlob(s[2..]));
      } else if IsSlash(s[0]) || IsWild(s[0]) {
        TooHeavy(s);
      } else {
        FoldedStep(s);
        DocumentedStep(s);
        var f, d := FoldedGlob(s[1..]), DocumentedGlob(s[1..]);
        TwoReadings(s[1..]);
        AlikeCons(BarsPair(s[1..], false), FirstRead(s), f, d);
        AlikeCons(BarsPair(s[1..], false), bar, [FirstRead(s)] + f, [FirstRead(s)] + d);
      }
    }
  }

  lemma PairAfterBar(s: string)
    requires |s| >= 2 && s[0] == '\\' && IsSlash(s[1])
    ensures FoldedGlob("|" + s) == [Lit('\\')] + FoldedGlob("|" + s[2..])
    ensures DocumentedGlob(s) == [Lit('\\')] + DocumentedGlob(s[2..])
  {
    PairFolded("|" + s, s[1..], s[2..]);
    DocumentedStep(s);
    FoldedChars(s[1]);
  }

  lemma PairFolded(t: string, tail: string, rest: string)
    requires |t| >= 2 && IsSlash(t[0]) && IsSlash(t[1]) && tail == t[2..]
    requires tail != "" && IsSlash(tail[0]) && rest == tail[1..]
    ensures FoldedGlob(t) == [Lit('\\')] + FoldedGlob("|" + rest)
  {
    FoldedStep(t);
    assert tail == [tail[0]] + rest;
    SlashAlike(tail[0], rest);
  }

  /** A bar or backslash with nothing to pair with, or a wildcard, after a bar that is left over. */
  lemma {:induction false} TooHeavy(s: string)
    requires s != [] && (IsSlash(s[0]) || IsWild(s[0]))
    requires !(s[0] == '\\' && |s| >= 2 && IsSlash(s[1]))
    ensures Weight(FoldedGlob("|" + s)) < Weight([Lit('\\')] + DocumentedGlob(s))
    decreases |s|, 0
  {
    var n, f := StepSize(s), FoldedGlob(s[StepSize(s)..]);
    DocumentedStep(s);
    FoldedChars(s[0]);
    TwoReadings(s[n..]);
    WeightCons(Lit('\\'), DocumentedGlob(s));
    WeightCons(FirstRead(s), DocumentedGlob(s[n..]));
    OneBehind(s);
    if n == 2 {
      WeightCons(if s[1] == '*' then Many else AtMostOne, f);
      WeightCons(Lit('\\'), FoldedGlob(s[1..]));
    } else {
      WeightCons(if IsSlash(s[0]) then Lit('\\') else Lit(s[0]), f);
    }
  }

  /** There the folded reading takes the next character together with the bar. */
  lemma OneBehind(s: string)
    requires s != [] && (IsSlash(s[0]) || IsWild(s[0]))
    ensures FoldedGlob("|" + s) == [if IsSlash(s[0]) then Lit('\\') else Lit(s[0])] + FoldedGlob(s[1..])
    ensures |s| >= 2 && IsWild(s[1]) ==>
              FoldedGlob(s[1..]) == [if s[1] == '*' then Many else AtMostOne] + FoldedGlob(s[2..])
  {
    var t := "|" + s;
    assert t[1] == s[0] && t[2..] == s[1..];
    FoldedStep(t);
    if |s| >= 2 {
      assert s[1..][0] == s[1] && s[1..][1..] == s[2..];
      FoldedStep(s[1..]);
    }
  }

  /** Exactly for which masks the code reads bars and backslashes as documented. */
  lemma BarReading(s: string)
    ensures FoldedGlob(s) == DocumentedGlob(s) <==> BarsPair(s, false)
  {
    TwoReadings(s);
  }

  // ----- Masks and hostmasks -----

  lemma FoldAppend(a: string, b: string)
    ensures Fold(a + b) == Fold(a) + Fold(b)
  {}

  /** Folding neither makes nor removes delimiters. */
  lemma FoldFree(s: string)
    ensures Free({'@'}, s) ==> Free({'@'}, Fold(s))
    ensures Free({'!', '@'}, s) ==> Free({'!', '@'}, Fold(s))
  {}

  function FoldPart(part: Option<string>): Option<string> {
    match part
    case None => None
    case Some(x) => Some(Fold(x))
  }

  lemma FoldWritten(delimiter: string, part: Option<string>)
    requires delimiter == "!" || delimiter == "@"
    ensures Fold(Written(delimiter, part)) == Written(delimiter, FoldPart(part))
    ensures Fold(OrStar(part)) == OrStar(FoldPart(part))
  {
    assert Fold("*") == "*" && Fold(delimiter) == delimiter;
    if part.Some? { FoldAppend(delimiter, part.value); }
  }

  /** Completing a mask and folding it can be done in either order. */
  lemma FoldComponents(m: string)
    ensures ParseMaskComponents(Fold(m)) == Fold(ParseMaskComponents(m))
  {
    var nick, user, host := EveryMask(m);
    FoldAppend(nick + Written("!", user), Written("@", host));
    FoldAppend(nick, Written("!", user));
    FoldWritten("!", user);
    FoldWritten("@", host);
    FoldFree(nick);
    if user.Some? { FoldFree(user.value); }
    MissingComponents(nick, user, host);
    MissingComponents(Fold(nick), FoldPart(user), FoldPart(host));
    FoldCompleted(nick, OrStar(user), OrStar(host));
  }

  lemma FoldCompleted(nick: string, user: string, host: string)
    ensures Fold(nick + "!" + user + "@" + host) == Fold(nick) + "!" + Fold(user) + "@" + Fold(host)
  {
    assert Fold("!") == "!" && Fold("@") == "@";
    FoldAppend(nick + "!" + user + "@", host);
    FoldAppend(nick + "!" + user, "@");
    FoldAppend(nick + "!", user);
    FoldAppend(nick, "!");
  }

  /** One mask, the client's way. */
  lemma OneMask(m: string, u: UserInfo)
    ensures MatchMask([m], u) <==> GlobMatches(FoldedGlob(ParseMaskComponents(m)), Fold(RenderUserInfo(u)))
  {
    FoldComponents(m);
    MaskMeaning([m], Fold(RenderUserInfo(u)));
    assert [m][0] == m;
  }

  lemma {:induction false} BarsApart(a: string, d: char, b: string, bar: bool)
    requires !IsSlash(d) && !IsWild(d)
    ensures BarsPair(a + [d] + b, bar) == (BarsPair(a, bar) && BarsPair(b, false))
    decreases |a|, bar
  {
    var s := a + [d] + b;
    if a == [] {
      assert s[0] == d && s[1..] == b;
    } else {
      assert s[1..] == a[1..] + [d] + b;
      BarsApart(a[1..], d, b, a[0] == '|');
      BarsApart(a[1..], d, b, false);
      if |a| >= 2 {
        assert s[2..] == a[2..] + [d] + b;
        BarsApart(a[2..], d, b, bar);
        BarsApart(a[2..], d, b, false);
      } else {
        assert s[1] == d;
      }
    }
  }

  lemma BarsOfParts(nick: string, user: string, host: string)
    ensures BarsPair(nick + "!" + user + "@" + host, false)
         == (BarsPair(nick, false) && BarsPair(user, false) && BarsPair(host, false))
  {
    assert nick + "!" + user + "@" + host == nick + ['!'] + (user + ['@'] + host);
    BarsApart(nick, '!', user + ['@'] + host, false);
    BarsApart(user, '@', host, false);
  }

  lemma BarsOfPart(a: string, delimiter: string, part: Option<string>)
    requires delimiter == "!" || delimiter == "@"
    ensures BarsPair(a + Written(delimiter, part), false) == (BarsPair(a, false) && BarsPair(OrStar(part), false))
  {
    assert BarsPair("*", false);
    if part.Some? {
      assert a + (delimiter + part.value) == a + [delimiter[0]] + part.value;
      BarsApart(a, delimiter[0], part.value, false);
    } else {
      assert a + "" == a;
    }
  }

  /** Completing a mask does not change how its bars pair up. */
  lemma BarsOfMask(m: string)
    ensures BarsPair(ParseMaskComponents(m), false) == BarsPair(m, false)
  {
    var nick, user, host := EveryMask(m);
    MissingComponents(nick, user, host);
    BarsOfParts(nick, OrStar(user), OrStar(host));
    BarsOfPart(nick + Written("!", user), "@", host);
    BarsOfPart(nick, "!", user);
  }

  /** The code reads a whole mask as documented exactly when its bars pair up. */
  lemma MaskReading(m: string)
    ensures ParseGlob(ParseMaskComponents(Fold(m))) == DocumentedGlob(ParseMaskComponents(m)) <==> BarsPair(m, false)
  {
    FoldComponents(m);
    BarsOfMask(m);
    BarReading(ParseMaskComponents(m));
  }

  // ----- The globs of a whole mask -----

  lemma GlobStep(s: string)
    requires s != []
    ensures var n := if IsEscape(s) then 2 else 1;
            ParseGlob(s) == [ParseGlob(s)[0]] + ParseGlob(s[n..])
    ensures IsEscape(s) ==> ParseGlob(s)[0] == Lit(s[1])
    ensures !IsEscape(s) ==>
              ParseGlob(s)[0] == if s[0] == '*' then Many else if s[0] == '?' then AtMostOne else Lit(s[0])
  {}

  lemma {:induction false} GlobApart(a: string, d: char, b: string)
    requires d != '\\' && !IsWild(d)
    ensures ParseGlob(a + [d] + b) == ParseGlob(a) + [Lit(d)] + ParseGlob(b)
    decreases |a|
  {
    var s := a + [d] + b;
    GlobStep(s);
    if a == [] {
      assert s[0] == d && s[1..] == b;
    } else {
      GlobStep(a);
      var n := if IsEscape(a) then 2 else 1;
      assert |a| == 1 ==> s[1] == d;
      assert s[n..] == a[n..] + [d] + b;
      GlobApart(a[n..], d, b);
      assert ParseGlob(a)[0] == ParseGlob(s)[0];
    }
  }

  lemma CompletedGlob(nick: string, user: string, host: string)
    ensures FoldedGlob(nick + "!" + user + "@" + host) == Whole(FoldedGlob(nick), FoldedGlob(user), FoldedGlob(host))
  {
    FoldCompleted(nick, user, host);
    var n, u, h := Fold(nick), Fold(user), Fold(host);
    assert n + "!" + u + "@" + h == n + ['!'] + (u + ['@'] + h);
    GlobApart(n, '!', u + ['@'] + h);
    GlobApart(u, '@', h);
  }

  lemma {:induction false} DocumentedApart(a: string, d: char, b: string)
    requires d == '!' || d == '@'
    ensures DocumentedGlob(a + [d] + b) == DocumentedGlob(a) + [Lit(d)] + DocumentedGlob(b)
    decreases |a|
  {
    var s := a + [d] + b;
    DocumentedStep(s);
    if a == [] {
      assert s[0] == d && s[1..] == b;
    } else {
      var n := StepSize(a);
      DocumentedStep(a);
      SameStep(a, d, b);
      DocumentedApart(a[n..], d, b);
      ConsApart(FirstRead(a), DocumentedGlob(a[n..]), [Lit(d)], DocumentedGlob(b));
    }
  }

  lemma SameStep(a: string, d: char, b: string)
    requires a != [] && (d == '!' || d == '@')
    ensures StepSize(a + [d] + b) == StepSize(a) && FirstRead(a + [d] + b) == FirstRead(a)
    ensures (a + [d] + b)[StepSize(a)..] == a[StepSize(a)..] + [d] + b
  {
    var s := a + [d] + b;
    assert s[0] == a[0] && (if |a| == 1 then s[1] == d else s[1] == a[1]);
  }

  lemma ConsApart(x: Glob, a: seq<Glob>, b: seq<Glob>, c: seq<Glob>)
    ensures [x] + (a + b + c) == ([x] + a) + b + c
  {}

  lemma CompletedDocumented(nick: string, user: string, host: string)
    ensures DocumentedGlob(nick + "!" + user + "@" + host)
         == Whole(DocumentedGlob(nick), DocumentedGlob(user), DocumentedGlob(host))
  {
    assert nick + "!" + user + "@" + host == nick + ['!'] + (user + ['@'] + host);
    DocumentedApart(nick, '!', user + ['@'] + host);
    DocumentedApart(user, '@', host);
  }

  /** Three parts as they stand in a mask whose other parts, if missing, count as `*`. */
  function MaskOf(nick: string, user: Option<string>, host: Option<string>): string {
    nick + Written("!", user) + Written("@", host)
  }

  predicate Parts(nick: string, user: Option<string>, host: Option<string>) {
    Free({'!', '@'}, nick) && (user.Some? ==> Free({'@'}, user.value))
  }

  lemma MaskParts(nick: string, user: Option<string>, host: Option<string>)
    requires Parts(nick, user, host)
    ensures FoldedGlob(ParseMaskComponents(MaskOf(nick, user, host)))
         == Whole(FoldedGlob(nick), FoldedGlob(OrStar(user)), FoldedGlob(OrStar(host)))
  {
    MissingComponents(nick, user, host);
    CompletedGlob(nick, OrStar(user), OrStar(host));
  }

  lemma DocumentedParts(nick: string, user: Option<string>, host: Option<string>)
    requires Parts(nick, user, host)
    ensures DocumentedGlob(ParseMaskComponents(MaskOf(nick, user, host)))
         == Whole(DocumentedGlob(nick), DocumentedGlob(OrStar(user)), DocumentedGlob(OrStar(host)))
  {
    MissingComponents(nick, user, host);
    CompletedDocumented(nick, OrStar(user), OrStar(host));
  }

  /** The bars of a mask pair up when those of its parts do, and then its parts are read as documented. */
  lemma PartReadings(nick: string, user: Option<string>, host: Option<string>)
    requires Parts(nick, user, host)
    ensures BarsPair(MaskOf(nick, user, host), false) <==>
              && FoldedGlob(nick) == DocumentedGlob(nick)
              && FoldedGlob(OrStar(user)) == DocumentedGlob(OrStar(user))
              && FoldedGlob(OrStar(host)) == DocumentedGlob(OrStar(host))
  {
    BarsOfMask(MaskOf(nick, user, host));
    MissingComponents(nick, user, host);
    BarsOfParts(nick, OrStar(user), OrStar(host));
    BarReading(nick);
    BarReading(OrStar(user));
    BarReading(OrStar(host));
  }

  /** The literals of the parts of a mask: folded, and without the delimiters that separate the parts. */
  predicate Clean(n: seq<Glob>, u: seq<Glob>, h: seq<Glob>) {
    && Free({'!', '@'}, Literals(n)) && Free({'@'}, Literals(u))
    && Fold(Literals(n)) == Literals(n) && Fold(Literals(u)) == Literals(u) && Fold(Literals(h)) == Literals(h)
  }

  lemma {:induction false} LiteralsFrom(s: string)
    ensures forall c | c in Literals(DocumentedGlob(s)) :: c in Fold(s)
    decreases |s|
  {
    if s != [] {
      DocumentedStep(s);
      var n := StepSize(s);
      LiteralsFrom(s[n..]);
      assert Fold(s)[0] == FoldChar(s[0]) && Fold(s)[n..] == Fold(s[n..]);
      if n == 2 { assert Fold(s)[1] == FoldChar(s[1]); }
      assert DocumentedGlob(s)[1..] == DocumentedGlob(s[n..]);
    }
  }

  lemma {:induction false} LiteralsOf(s: string)
    ensures forall c | c in Literals(ParseGlob(s)) :: c in s
    decreases |s|
  {
    if s != [] {
      GlobStep(s);
      var n := if IsEscape(s) then 2 else 1;
      LiteralsOf(s[n..]);
      assert ParseGlob(s)[1..] == ParseGlob(s[n..]);
    }
  }

  /** Characters from a folded text are folded, and they are no delimiters that the text does not have. */
  lemma FoldedLiterals(s: string, l: string)
    requires forall c | c in l :: c in Fold(s)
    ensures Fold(l) == l
    ensures (Free({'!', '@'}, s) ==> Free({'!', '@'}, l)) && (Free({'@'}, s) ==> Free({'@'}, l))
  {
    FoldFree(s);
    forall i | 0 <= i < |l|
      ensures FoldChar(l[i]) == l[i]
      ensures exists k :: 0 <= k < |Fold(s)| && Fold(s)[k] == l[i]
    {
      assert l[i] in Fold(s);
    }
  }

  /** The literals of every mask are clean in both readings. */
  lemma CleanParts(nick: string, user: string, host: string)
    requires Free({'!', '@'}, nick) && Free({'@'}, user)
    ensures Clean(FoldedGlob(nick), FoldedGlob(user), FoldedGlob(host))
    ensures Clean(DocumentedGlob(nick), DocumentedGlob(user), DocumentedGlob(host))
  {
    forall s | s in {nick, user, host}
      ensures var l := Literals(FoldedGlob(s));
              Fold(l) == l && (Free({'!', '@'}, s) ==> Free({'!', '@'}, l)) && (Free({'@'}, s) ==> Free({'@'}, l))
      ensures var l := Literals(DocumentedGlob(s));
              Fold(l) == l && (Free({'!', '@'}, s) ==> Free({'!', '@'}, l)) && (Free({'@'}, s) ==> Free({'@'}, l))
    {
      LiteralsOf(Fold(s));
      LiteralsFrom(s);
      FoldedLiterals(s, Literals(FoldedGlob(s)));
      FoldedLiterals(s, Literals(DocumentedGlob(s)));
    }
  }

  lemma EmptyGlobs(s: string)
    ensures FoldedGlob(s) == [] <==> s == ""
    ensures DocumentedGlob(s) == [] <==> s == ""
  {
    if s != "" {
      FoldedStep(s);
      DocumentedStep(s);
    }
  }

  lemma StarFree()
    ensures Free({'@'}, "*")
  {}

  // ----- Users -----

  lemma FoldRender(who: UserInfo)
    requires Splittable(who)
    ensures var folded := UserInfo(Fold(who.nick), Fold(who.name), Fold(who.host));
            Fold(RenderUserInfo(who)) == RenderUserInfo(folded) && Splittable(folded)
  {
    var user, at := if who.name == "" then None else Some(who.name), if who.host == "" then None else Some(who.host);
    FoldAppend(who.nick + Written("!", user), Written("@", at));
    FoldAppend(who.nick, Written("!", user));
    FoldWritten("!", user);
    FoldWritten("@", at);
    FoldFree(who.nick);
    FoldFree(who.name);
  }

  /** How a matching user is cut at its own delimiters, where the mask may cut it elsewhere. */
  lemma UserCut(who: UserInfo, x: string, y: string, z: string) returns (name: string, host: string)
    requires Splittable(who) && Free({'!', '@'}, x) && Fold(RenderUserInfo(who)) == x + "!" + y + "@" + z
    ensures name != "" && host != "" && Free({'@'}, name)
    ensures (y == name && z == host) || (name + "@" <= y)
    ensures Fold(RenderUserInfo(who)) == x + "!" + name + "@" + host
    ensures x == Fold(who.nick) && name == Fold(who.name) && host == Fold(who.host)
  {
    var (a, b) := Span({'@'}, y + "@" + z);
    AtSign(y, z, a, b);
    name, host := a, b[1..];
    assert y + "@" + z == name + "@" + host;
    Beginning(x, y, z, name, host);
    FoldRender(who);
    OwnParts(UserInfo(Fold(who.nick), Fold(who.name), Fold(who.host)), x, name, host);
  }

  lemma OwnParts(who: UserInfo, x: string, name: string, host: string)
    requires Splittable(who) && RenderUserInfo(who) == x + "!" + name + "@" + host
    requires Free({'!', '@'}, x) && Free({'@'}, name)
    ensures who == UserInfo(x, name, host) && name != "" && host != ""
  {
    UserInfoRoundTrip(who);
    WrittenParts(x, name, host);
    EmptyParts(x, name, host);
  }

  lemma Beginning(x: string, y: string, z: string, name: string, host: string)
    requires y + "@" + z == name + "@" + host
    ensures x + "!" + y + "@" + z == x + "!" + name + "@" + host
  {
    assert x + "!" + y + "@" + z == x + "!" + (y + "@" + z);
    assert x + "!" + name + "@" + host == x + "!" + (name + "@" + host);
  }

  lemma WrittenParts(x: string, name: string, host: string)
    requires Free({'!', '@'}, x) && Free({'@'}, name)
    ensures ParseUserInfo(x + "!" + name + "@" + host) == UserInfo(x, name, host)
  {
    assert x + "!" + name + "@" + host == (x + "!" + name) + ("@" + host);
    SpanUnique({'@'}, x + "!" + name, "@" + host);
    assert x + "!" + name == x + ("!" + name);
    SpanUnique({'!'}, x, "!" + name);
  }

  lemma AtSign(y: string, z: string, a: string, b: string)
    requires Span({'@'}, y + "@" + z) == (a, b)
    ensures b != "" && b[0] == '@'
    ensures (y == a && z == b[1..]) || a + "@" <= y
  {
    var w := y + "@" + z;
    assert w == a + b && w[|y|] == '@' && w[..|y|] == y;
    assert forall k | 0 <= k < |a| :: w[k] == a[k] && a[k] != '@';
    assert w[..|a|] == a && w[|a|] == '@';
    if |a| == |y| {
      assert w[|y| + 1..] == z == b[1..];
    } else {
      assert y[..|a|] == w[..|y|][..|a|] == a && y[|a|] == w[|a|];
    }
  }

  lemma EmptyParts(x: string, name: string, host: string)
    ensures RenderUserInfo(UserInfo(x, name, host)) == x + "!" + name + "@" + host ==> name != "" && host != ""
  {
    var r := RenderUserInfo(UserInfo(x, name, host));
    assert |x + "!" + name + "@" + host| == |x| + |name| + |host| + 2;
  }
}
