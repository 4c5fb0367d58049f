/** What is documented about masks (src/Client/Mask.hs) as a whole, and exactly for which masks and users it is kept. */
module MaskPromises {
  import opened Text
  import opened UserInfos
  import opened Identifiers
  import opened Masks
  import opened Globs
  import opened MaskReadings
  import opened QuestionMarks

  /** What a mask is matched with when a missing user name or host counts as an empty one. The code leaves out the
      delimiter of a missing part as well. */
  function FullHostmask(u: UserInfo): string {
    u.nick + "!" + u.name + "@" + u.host
  }

  predicate Complete(u: UserInfo) {
    u.name != "" && u.host != ""
  }

  /** The documented meaning of a mask: escapes are those of the written text, `?` is exactly one character, and a
      missing part is a wildcard, so that it does not matter what the user has there, if anything. */
  predicate DocumentedMask(m: string, u: UserInfo) {
    DocumentedMatches(DocumentedGlob(ParseMaskComponents(m)), Fold(FullHostmask(u)))
  }

  /** The same, of the text that the code matches. */
  predicate DocumentedText(m: string, u: UserInfo) {
    DocumentedMatches(DocumentedGlob(ParseMaskComponents(m)), Fold(RenderUserInfo(u)))
  }

  lemma CompleteText(u: UserInfo)
    requires Complete(u)
    ensures RenderUserInfo(u) == FullHostmask(u)
  {
    assert RenderUserInfo(u) == u.nick + "!" + u.name + "@" + u.host;
  }

  // ----- Users without a name or a host -----

  predicate BangThenAt(s: string) {
    exists i, j :: 0 <= i < j < |s| && s[i] == '!' && s[j] == '@'
  }

  lemma BangThenAtFolded(s: string)
    ensures BangThenAt(Fold(s)) <==> BangThenAt(s)
  {
    var f := Fold(s);
    assert forall i | 0 <= i < |s| :: (f[i] == '!' <==> s[i] == '!') && (f[i] == '@' <==> s[i] == '@');
    if BangThenAt(s) {
      var i, j :| 0 <= i < j < |s| && s[i] == '!' && s[j] == '@';
      assert f[i] == '!' && f[j] == '@';
    }
  }

  /** Every mask asks for both delimiters, and nothing else is asked for by `*`. */
  lemma BothDelimiters(n: seq<Glob>, u: seq<Glob>, h: seq<Glob>, t: string)
    ensures GlobMatches(Whole(n, u, h), t) ==> BangThenAt(t)
    ensures BangThenAt(t) ==> GlobMatches(Whole([Many], [Many], [Many]), t)
  {
    if GlobMatches(Whole(n, u, h), t) {
      var x, y, z := WholeSplit(false, n, u, h, t);
      assert t[|x|] == '!' && t[|x| + 1 + |y|] == '@';
    }
    if BangThenAt(t) {
      var i, j :| 0 <= i < j < |t| && t[i] == '!' && t[j] == '@';
      assert t == t[..i] + "!" + t[i + 1..j] + "@" + t[j + 1..];
      ManyMatches(false, t[..i]);
      ManyMatches(false, t[i + 1..j]);
      ManyMatches(false, t[j + 1..]);
      WholeJoin(false, [Many], [Many], [Many], t[..i], t[i + 1..j], t[j + 1..]);
    }
  }

  lemma StarReading()
    ensures FoldedGlob("*") == DocumentedGlob("*") == [Many]
  {
    FoldedStep("*");
    DocumentedStep("*");
    assert "*"[1..] == "";
  }

  lemma ManyMatches(exact: bool, s: string)
    ensures Matches(exact, [Many], s)
  {
    assert [Many][1..] == [] && s[|s|..] == [];
    assert DocumentedMatches([Many][1..], s[|s|..]) && GlobMatches([Many][1..], s[|s|..]);
  }

  lemma StarMask()
    ensures FoldedGlob(ParseMaskComponents("*")) == Whole([Many], [Many], [Many])
    ensures DocumentedGlob(ParseMaskComponents("*")) == Whole([Many], [Many], [Many])
  {
    assert MaskOf("*", None, None) == "*";
    MaskParts("*", None, None);
    DocumentedParts("*", None, None);
    StarReading();
  }

  /** Where the hostmask of a user has both delimiters. */
  lemma Delimiters(u: UserInfo)
    requires Splittable(u)
    ensures BangThenAt(RenderUserInfo(u)) <==> Complete(u) || (u.name == "" && BangThenAt(u.host))
  {
    if Complete(u) {
      var t := RenderUserInfo(u);
      assert t == u.nick + "!" + u.name + "@" + u.host;
      assert t[|u.nick|] == '!' && t[|u.nick| + 1 + |u.name|] == '@';
    } else if u.name == "" && u.host != "" {
      assert RenderUserInfo(u) == u.nick + "@" + u.host;
      HostOnly(u.nick, u.host);
    } else {
      NoHostPart(u);
    }
  }

  lemma HostOnly(nick: string, host: string)
    requires Free({'!', '@'}, nick)
    ensures BangThenAt(nick + "@" + host) <==> BangThenAt(host)
  {
    var t, k := nick + "@" + host, |nick| + 1;
    AfterNick(nick, host);
    if i, j :| 0 <= i < j < |t| && t[i] == '!' && t[j] == '@' {
      assert host[i - k] == '!' && host[j - k] == '@';
    }
    if i, j :| 0 <= i < j < |host| && host[i] == '!' && host[j] == '@' {
      assert t[k + i] == '!' && t[k + j] == '@';
    }
  }

  lemma AfterNick(nick: string, host: string)
    requires Free({'!', '@'}, nick)
    ensures var t, k := nick + "@" + host, |nick| + 1;
            && |t| == k + |host| && (forall i | 0 <= i < |t| && t[i] == '!' :: i >= k && host[i - k] == '!')
            && (forall i | k <= i < |t| :: t[i] == host[i - k])
  {
    var t := nick + "@" + host;
    assert forall i | 0 <= i < |nick| :: t[i] == nick[i];
  }

  lemma NoHostPart(u: UserInfo)
    requires Splittable(u) && u.host == ""
    ensures Free({'@'}, RenderUserInfo(u))
  {
    var t := RenderUserInfo(u);
    assert t == u.nick + if u.name == "" then "" else "!" + u.name;
    forall i | 0 <= i < |t|
      ensures t[i] != '@'
    {
      if i > |u.nick| { assert t[i] == u.name[i - |u.nick| - 1]; }
    }
  }

  /** Exactly which users masks can match at all: `*` misses those without a user name or host, and what `*` does not
      match no list of masks matches. */
  lemma Matchable(masks: seq<string>, u: UserInfo)
    requires Splittable(u) && masks != []
    ensures MatchMask(["*"], u) <==> Complete(u) || (u.name == "" && BangThenAt(u.host))
    ensures MatchMask(masks, u) ==> MatchMask(["*"], u)
  {
    var t := Fold(RenderUserInfo(u));
    StarMask();
    OneMask("*", u);
    BothDelimiters([Many], [Many], [Many], t);
    BangThenAtFolded(RenderUserInfo(u));
    Delimiters(u);
    if MatchMask(masks, u) {
      MaskMeaning(masks, t);
      var i :| 0 <= i < |masks| && GlobMatches(ParseGlob(ParseMaskComponents(Fold(masks[i]))), t);
      FoldComponents(masks[i]);
      var nick, user, host := EveryMask(masks[i]);
      MaskParts(nick, user, host);
      assert MaskOf(nick, user, host) == masks[i];
      BothDelimiters(FoldedGlob(nick), FoldedGlob(OrStar(user)), FoldedGlob(OrStar(host)), t);
    }
  }

  /** The documented promise for every list of masks whose bars pair up and that has no `?` wildcard: it is kept of the
      text that the code matches, and of the user when he has a name and a host; other users are not matched even when
      they should be. */
  lemma AsDocumented(masks: seq<string>, u: UserInfo)
    requires masks != []
    requires forall i | 0 <= i < |masks| :: BarsPair(masks[i], false)
    requires forall i | 0 <= i < |masks| :: Marks(DocumentedGlob(ParseMaskComponents(masks[i]))) == 0
    ensures MatchMask(masks, u) <==> exists i :: 0 <= i < |masks| && DocumentedText(masks[i], u)
    ensures Complete(u) ==>
              (MatchMask(masks, u) <==> exists i :: 0 <= i < |masks| && DocumentedMask(masks[i], u))
    ensures Splittable(u) && !BangThenAt(u.host) ==>
              (MatchMask(masks, u) <==> Complete(u) && exists i :: 0 <= i < |masks| && DocumentedMask(masks[i], u))
  {
    var t := Fold(RenderUserInfo(u));
    MaskMeaning(masks, t);
    forall i | 0 <= i < |masks|
      ensures GlobMatches(ParseGlob(ParseMaskComponents(Fold(masks[i]))), t) <==> DocumentedText(masks[i], u)
    {
      MaskReading(masks[i]);
      WithoutMarks(DocumentedGlob(ParseMaskComponents(masks[i])), t);
    }
    if Complete(u) {
      CompleteText(u);
      assert forall i | 0 <= i < |masks| :: DocumentedText(masks[i], u) == DocumentedMask(masks[i], u);
    }
    if Splittable(u) { Matchable(masks, u); }
  }

  // ----- Nicknames as masks -----

  /** A nickname that a mask can spell without escapes or wildcards; it may have bars. */
  predicate Plain(nick: string) {
    Free({'!', '@', '*', '?', '\\'}, nick)
  }

  lemma {:induction false} PlainFolded(nick: string)
    requires Plain(nick)
    ensures AllLiteral(FoldedGlob(nick))
    decreases |nick|
  {
    if nick != [] {
      FoldedStep(nick);
      PlainFolded(nick[1..]);
      if |nick| >= 2 { PlainFolded(nick[2..]); }
    }
  }

  lemma AllLiteralCons(c: char, g: seq<Glob>)
    requires AllLiteral(g)
    ensures AllLiteral([Lit(c)] + g) && Literals([Lit(c)] + g) == [c] + Literals(g)
  {
    assert ([Lit(c)] + g)[1..] == g;
  }

  lemma {:induction false} PlainReading(nick: string)
    requires Plain(nick)
    ensures AllLiteral(DocumentedGlob(nick)) && Literals(DocumentedGlob(nick)) == Fold(nick)
    decreases |nick|
  {
    if nick != [] {
      var c, rest := FoldChar(nick[0]), nick[1..];
      assert nick[0] !in {'*', '?', '\\'} && Plain(rest);
      PlainReading(rest);
      AllLiteralCons(c, DocumentedGlob(rest));
      assert DocumentedGlob(nick) == [Lit(c)] + DocumentedGlob(rest);
      assert Fold(nick) == [c] + Fold(rest);
    }
  }

  lemma {:induction false} SameLiterals(g: seq<Glob>, h: seq<Glob>)
    requires AllLiteral(g) && AllLiteral(h) && Literals(g) == Literals(h)
    ensures g == h
  {
    if g != [] && h != [] {
      assert Literals(g)[1..] == Literals(g[1..]) && Literals(h)[1..] == Literals(h[1..]);
      SameLiterals(g[1..], h[1..]);
      assert g == [g[0]] + g[1..] && h == [h[0]] + h[1..];
    }
  }

  lemma PlainParts(nick: string)
    requires Plain(nick)
    ensures FoldedGlob(ParseMaskComponents(nick)) == Whole(FoldedGlob(nick), [Many], [Many])
    ensures DocumentedGlob(ParseMaskComponents(nick)) == Whole(DocumentedGlob(nick), [Many], [Many])
  {
    assert MaskOf(nick, None, None) == nick;
    MaskParts(nick, None, None);
    DocumentedParts(nick, None, None);
    StarReading();
  }

  lemma PlainExact(nick: string)
    requires Plain(nick)
    ensures DocumentedMatches(DocumentedGlob(nick), Fold(nick))
  {
    PlainReading(nick);
    LiteralSelf(true, DocumentedGlob(nick), Fold(nick));
  }

  lemma PlainDocumented(nick: string, y: string, z: string)
    requires Plain(nick)
    ensures DocumentedMatches(Whole(DocumentedGlob(nick), [Many], [Many]), Fold(nick) + "!" + y + "@" + z)
  {
    PlainExact(nick);
    ManyMatches(true, y);
    ManyMatches(true, z);
    WholeJoin(true, DocumentedGlob(nick), [Many], [Many], Fold(nick), y, z);
  }

  /** A user that a nickname mask matches has this nickname, a name and a host, and the nickname is read as it is. */
  lemma PlainMatched(nick: string, who: UserInfo)
    requires Plain(nick) && Splittable(who) && who.nick == nick
    requires GlobMatches(Whole(FoldedGlob(nick), [Many], [Many]), Fold(RenderUserInfo(who)))
    ensures FoldedGlob(nick) == DocumentedGlob(nick) && Complete(who)
  {
    var n := FoldedGlob(nick);
    var x, y, z := WholeSplit(false, n, [Many], [Many], Fold(RenderUserInfo(who)));
    PlainReading(nick);
    PlainFolded(nick);
    LiteralOnly(n, x);
    CleanParts(nick, "", "");
    var name, host := UserCut(who, x, y, z);
    SameLiterals(n, DocumentedGlob(nick));
  }

  /** A nickname used as a mask is documented to match whoever has it. It does exactly when no two of its bars stand
      together and the user has a name and a host. */
  lemma PlainNickname(nick: string, who: UserInfo)
    requires Plain(nick) && Splittable(who) && who.nick == nick
    ensures DocumentedMask(nick, who)
    ensures MatchMask([nick], who) <==> BarsPair(nick, false) && who.name != "" && who.host != ""
  {
    PlainParts(nick);
    PlainDocumented(nick, Fold(who.name), Fold(who.host));
    FoldCompleted(nick, who.name, who.host);
    OneMask(nick, who);
    BarReading(nick);
    if MatchMask([nick], who) {
      PlainMatched(nick, who);
    } else if BarsPair(nick, false) && Complete(who) {
      CompleteText(who);
      ExactIsMatch(Whole(DocumentedGlob(nick), [Many], [Many]), Fold(RenderUserInfo(who)));
    }
  }

  lemma TwoBars()
    ensures !BarsPair("a||", false)
  {
    assert "a||"[1..] == "||" && "||"[1..] == "|";
    assert !BarsPair("|", true) && !BarsPair("||", false);
  }

  /** A failing mask for bars: `a||` is documented to match the nickname `a||`, but is read as `a` and one bar. */
  lemma BarExample()
    ensures var who := UserInfo("a||", "x", "x"); !MatchMask(["a||"], who) && DocumentedMask("a||", who)
  {
    TwoBars();
    PlainNickname("a||", UserInfo("a||", "x", "x"));
  }

  /** Failing users: the prefixes `a` and `a@h` are read as users without a name, and no mask matches them, though `a`,
      `*` and `a@h` are documented to. */
  lemma IncompleteExample()
    ensures var who := ParseUserInfo("a");
            !MatchMask(["a", "*"], who) && DocumentedMask("a", who) && DocumentedMask("*", who)
    ensures var who := ParseUserInfo("a@h"); !MatchMask(["a@h"], who) && DocumentedMask("a@h", who)
  {
    var a, ah := UserInfo("a", "", ""), UserInfo("a", "", "h");
    OnlyNick();
    Matchable(["a", "*"], a);
    Matchable(["a@h"], ah);
    PlainNickname("a", a);
    StarOfAll(a);
    NickAtHost();
  }

  lemma OnlyNick()
    ensures ParseUserInfo("a") == UserInfo("a", "", "") && ParseUserInfo("a@h") == UserInfo("a", "", "h")
  {
    var a, ah := UserInfo("a", "", ""), UserInfo("a", "", "h");
    assert RenderUserInfo(a) == "a" && RenderUserInfo(ah) == "a@h";
    UserInfoRoundTrip(a);
    UserInfoRoundTrip(ah);
  }

  lemma StarOfAll(u: UserInfo)
    ensures DocumentedMask("*", u)
  {
    var x, y, z := Fold(u.nick), Fold(u.name), Fold(u.host);
    StarMask();
    ManyMatches(true, x);
    ManyMatches(true, y);
    ManyMatches(true, z);
    WholeJoin(true, [Many], [Many], [Many], x, y, z);
    FoldCompleted(u.nick, u.name, u.host);
  }

  lemma NickAtHost()
    ensures DocumentedMask("a@h", UserInfo("a", "", "h"))
  {
    assert MaskOf("a", None, Some("h")) == "a@h";
    DocumentedParts("a", None, Some("h"));
    StarReading();
    PlainExact("a");
    PlainExact("h");
    ManyMatches(true, "");
    WholeJoin(true, DocumentedGlob("a"), [Many], DocumentedGlob("h"), Fold("a"), "", Fold("h"));
    FoldCompleted("a", "", "h");
    assert Fold("") == "";
  }

  // ----- Bars and question marks together -----

  /** A text for the documented reading in which only the `?` take more than they need in the other one. */
  function Filling(g: seq<Glob>): string {
    if g == [] then [] else Filler(g[0]) + Filling(g[1..])
  }

  function Filler(x: Glob): string {
    match x
    case Lit(c) => [c]
    case Many => []
    case AtMostOne => "X"
  }

  lemma {:induction false} FillingMatches(g: seq<Glob>)
    ensures DocumentedMatches(g, Filling(g))
    ensures forall c | c in Filling(g) :: c in Literals(g) || c == 'X'
  {
    if g != [] {
      FillingMatches(g[1..]);
      var x, s := Filler(g[0]), Filling(g);
      assert s[..|x|] == x && s[|x|..] == Filling(g[1..]);
      assert FirstTakes(true, g, s, |x|);
      MatchFirst(true, g, s);
    }
  }

  lemma {:induction false} FillingWeight(g: seq<Glob>)
    ensures Heavy(Filling(g)) == Weight(g)
  {
    if g != [] {
      FillingWeight(g[1..]);
      HeavyAppend(Filler(g[0]), Filling(g[1..]));
      assert g == [g[0]] + g[1..];
      WeightCons(g[0], g[1..]);
    }
  }

  lemma FillingClean(g: seq<Glob>)
    requires Fold(Literals(g)) == Literals(g)
    ensures Fold(Filling(g)) == Filling(g)
    ensures Free({'!', '@'}, Literals(g)) ==> Free({'!', '@'}, Filling(g))
    ensures Free({'@'}, Literals(g)) ==> Free({'@'}, Filling(g))
  {
    var l, f := Literals(g), Filling(g);
    FillingMatches(g);
    forall i | 0 <= i < |f|
      ensures f[i] == 'X' || exists k :: 0 <= k < |l| && l[k] == f[i]
      ensures FoldChar(f[i]) == f[i]
    {
      assert f[i] in f;
      if f[i] != 'X' {
        var k :| 0 <= k < |l| && l[k] == f[i];
        assert Fold(l)[k] == FoldChar(l[k]);
      }
    }
  }

  /** A user that the documented reading matches, with no more of the characters that escapes are about than needed. */
  predicate Bare(n: seq<Glob>, u: seq<Glob>, h: seq<Glob>, who: UserInfo) {
    var t := Fold(RenderUserInfo(who));
    Splittable(who) && DocumentedMatches(Whole(n, u, h), t) && Heavy(t) == Weight(Whole(n, u, h))
  }

  /** Some user can match a mask of these parts: when no part is empty, or some wildcard can run past an `@`. */
  predicate Reachable(n: seq<Glob>, u: seq<Glob>, h: seq<Glob>) {
    || (u != [] && h != [])
    || !AllLiteral(n)
    || (u != [] && (HasStar(u) || !AllLiteral(u[1..])))
  }

  lemma HeavyWhole(a: string, b: string, c: string)
    ensures Heavy(a + "!" + b + "@" + c) == Heavy(a) + Heavy(b) + Heavy(c)
  {
    Weightless();
    HeavyAppend(a + "!" + b + "@", c);
    HeavyAppend(a + "!" + b, "@");
    HeavyAppend(a + "!", b);
    HeavyAppend(a, "!");
  }

  lemma Weightless()
    ensures Heavy("") == Heavy("X") == Heavy("!") == Heavy("@") == Heavy("X@") == 0
  {
    assert "X@"[1..] == "@";
  }

  /** Texts for the three parts make a text for the whole mask. */
  lemma BareWhole(n: seq<Glob>, u: seq<Glob>, h: seq<Glob>, x: string, y: string, z: string)
    requires DocumentedMatches(n, x) && DocumentedMatches(u, y) && DocumentedMatches(h, z)
    requires Heavy(x) == Weight(n) && Heavy(y) == Weight(u) && Heavy(z) == Weight(h)
    ensures var t := x + "!" + y + "@" + z;
            DocumentedMatches(Whole(n, u, h), t) && Heavy(t) == Weight(Whole(n, u, h))
  {
    WholeJoin(true, n, u, h, x, y, z);
    WholeLiterals(n, u, h);
    HeavyWhole(x, y, z);
    HeavyWhole(Literals(n), Literals(u), Literals(h));
  }

  function NonEmpty(g: seq<Glob>): string {
    if Filling(g) == "" then "X" else Filling(g)
  }

  lemma NonEmptyMatches(g: seq<Glob>)
    requires Fold(Literals(g)) == Literals(g) && g != []
    ensures DocumentedMatches(g, NonEmpty(g)) && Heavy(NonEmpty(g)) == Weight(g)
    ensures Fold(NonEmpty(g)) == NonEmpty(g)
    ensures Free({'@'}, Literals(g)) ==> Free({'@'}, NonEmpty(g))
  {
    FillingMatches(g);
    FillingWeight(g);
    FillingClean(g);
    if Filling(g) == "" {
      FillingMatches(g[1..]);
      assert g[0].Many? && Filling(g[1..]) == "" && "X"[1..] == "";
      assert DocumentedMatches(g[1..], "X"[1..]);
      FoldOne('X');
      Weightless();
    }
  }

  lemma FullUser(n: seq<Glob>, u: seq<Glob>, h: seq<Glob>) returns (who: UserInfo)
    requires Clean(n, u, h) && u != [] && h != []
    ensures Bare(n, u, h, who)
  {
    FillingMatches(n);
    FillingWeight(n);
    FillingClean(n);
    NonEmptyMatches(u);
    NonEmptyMatches(h);
    who := UserInfo(Filling(n), NonEmpty(u), NonEmpty(h));
    FullText(who.nick, who.name, who.host);
    BareWhole(n, u, h, who.nick, who.name, who.host);
  }

  /** One element takes `s`, the others what they need. */
  lemma Crossing(a: seq<Glob>, x: Glob, b: seq<Glob>, s: string)
    requires !x.Lit? && Takes(true, x, s) && Heavy(s) == 0
    ensures var t := Filling(a) + s + Filling(b);
            DocumentedMatches(a + [x] + b, t) && Heavy(t) == Weight(a + [x] + b)
  {
    FillingMatches(a);
    FillingMatches(b);
    OneTakes(x, s);
    MatchJoin(true, a, [x], Filling(a), s);
    MatchJoin(true, a + [x], b, Filling(a) + s, Filling(b));
    CrossingWeight(a, x, b, s);
  }

  lemma OneTakes(x: Glob, s: string)
    requires Takes(true, x, s)
    ensures DocumentedMatches([x], s)
  {
    assert [x][1..] == [] && s[..|s|] == s && s[|s|..] == "";
    assert FirstTakes(true, [x], s, |s|);
    MatchFirst(true, [x], s);
  }

  lemma CrossingWeight(a: seq<Glob>, x: Glob, b: seq<Glob>, s: string)
    requires !x.Lit? && Heavy(s) == 0
    ensures Heavy(Filling(a) + s + Filling(b)) == Weight(a + [x] + b)
  {
    FillingWeight(a);
    FillingWeight(b);
    LiteralsSplit(a, x, b);
    HeavyAppend(Filling(a) + s, Filling(b));
    HeavyAppend(Filling(a), s);
    HeavyAppend(Literals(a), Literals(b));
  }

  lemma NickUser(n: seq<Glob>, u: seq<Glob>, h: seq<Glob>) returns (who: UserInfo)
    requires Clean(n, u, h) && !AllLiteral(n)
    ensures Bare(n, u, h, who)
  {
    var a, x, b := SomeWild(n);
    var l, r := Filling(a), Filling(b);
    LiteralsSplit(a, x, b);
    FreeParts({'!', '@'}, Literals(a), Literals(b));
    FoldHalves(Literals(a), Literals(b));
    FillingClean(a);
    FillingClean(b);
    FillingClean(u);
    FillingClean(h);
    FillingMatches(u);
    FillingMatches(h);
    FillingWeight(u);
    FillingWeight(h);
    Weightless();
    Crossing(a, x, b, "@");
    who := UserInfo(l, "", r + "!" + Filling(u) + "@" + Filling(h));
    NickText(l, r, Filling(u), Filling(h));
    BareWhole(n, u, h, l + "@" + r, Filling(u), Filling(h));
  }

  /** A user part can run past an `@` behind a name with a star, or with a wildcard behind the first element. */
  lemma StarPastName(u: seq<Glob>) returns (p: string, q: string)
    requires Fold(Literals(u)) == Literals(u) && Free({'@'}, Literals(u)) && HasStar(u)
    ensures p != "" && Free({'@'}, p) && Fold(p) == p && Fold(q) == q
    ensures DocumentedMatches(u, p + "@" + q) && Heavy(p + "@" + q) == Weight(u)
  {
    var a, b := StarSplit(u);
    CleanHalves(u, a, b);
    FoldedX(Filling(a));
    Weightless();
    Crossing(a, Many, b, "X@");
    p, q := Filling(a) + "X", Filling(b);
    MoveX(Filling(a), q);
  }

  lemma MoveX(a: string, b: string)
    ensures a + "X@" + b == a + "X" + "@" + b
  {}

  lemma MarkPastName(u: seq<Glob>) returns (p: string, q: string)
    requires Fold(Literals(u)) == Literals(u) && Free({'@'}, Literals(u))
    requires u != [] && !HasStar(u) && !AllLiteral(u[1..])
    ensures p != "" && Free({'@'}, p) && Fold(p) == p && Fold(q) == q
    ensures DocumentedMatches(u, p + "@" + q) && Heavy(p + "@" + q) == Weight(u)
  {
    var a, x, b := SomeWild(u[1..]);
    var c := [u[0]] + a;
    assert u == c + [x] + b && u[0] in u && c[1..] == a;
    LiteralsSplit(c, x, b);
    CleanHalves(u, c, b);
    Weightless();
    Crossing(c, x, b, "@");
    p, q := Filling(c), Filling(b);
    assert p == Filler(u[0]) + Filling(a);
  }

  lemma CleanHalves(u: seq<Glob>, a: seq<Glob>, b: seq<Glob>)
    requires Fold(Literals(u)) == Literals(u) && Free({'@'}, Literals(u)) && Literals(u) == Literals(a) + Literals(b)
    ensures Fold(Filling(a)) == Filling(a) && Fold(Filling(b)) == Filling(b) && Free({'@'}, Filling(a))
  {
    FreeParts({'@'}, Literals(a), Literals(b));
    FoldHalves(Literals(a), Literals(b));
    FillingClean(a);
    FillingClean(b);
  }

  lemma HostlessUser(n: seq<Glob>, u: seq<Glob>, h: seq<Glob>) returns (who: UserInfo)
    requires Clean(n, u, h) && h == [] && AllLiteral(n)
    requires u != [] && (HasStar(u) || !AllLiteral(u[1..]))
    ensures Bare(n, u, h, who)
  {
    var p, q;
    if HasStar(u) { p, q := StarPastName(u); } else { p, q := MarkPastName(u); }
    who := UserInfo(Literals(n), p, q + "@");
    UserText(Literals(n), p, q);
    HostlessText(n, u, h, p + "@" + q);
  }

  lemma HostlessText(n: seq<Glob>, u: seq<Glob>, h: seq<Glob>, y: string)
    requires h == [] && AllLiteral(n) && DocumentedMatches(u, y) && Heavy(y) == Weight(u)
    ensures var t := Literals(n) + "!" + (y + "@");
            DocumentedMatches(Whole(n, u, h), t) && Heavy(t) == Weight(Whole(n, u, h))
  {
    var x := Literals(n);
    LiteralSelf(true, n, x);
    Weightless();
    BareWhole(n, u, h, x, y, "");
    NothingBehind(x + "!", y);
  }

  lemma NothingBehind(x: string, y: string)
    ensures x + y + "@" + "" == x + (y + "@")
  {}

  lemma Someone(n: seq<Glob>, u: seq<Glob>, h: seq<Glob>) returns (who: UserInfo)
    requires Clean(n, u, h) && Reachable(n, u, h)
    ensures Bare(n, u, h, who)
  {
    if u != [] && h != [] {
      who := FullUser(n, u, h);
    } else if !AllLiteral(n) {
      who := NickUser(n, u, h);
    } else {
      who := HostlessUser(n, u, h);
    }
  }

  lemma Nobody(n: seq<Glob>, u: seq<Glob>, h: seq<Glob>, who: UserInfo)
    requires Clean(n, u, h) && !Reachable(n, u, h) && Splittable(who)
    ensures !GlobMatches(Whole(n, u, h), Fold(RenderUserInfo(who)))
  {
    if GlobMatches(Whole(n, u, h), Fold(RenderUserInfo(who))) {
      var x, y, z := WholeSplit(false, n, u, h, Fold(RenderUserInfo(who)));
      LiteralOnly(n, x);
      if u == [] {
        NoName(who, x, z);
      } else {
        NoHost(who, x, y);
        OneMarkInFront(u, y);
      }
    }
  }

  lemma OneMarkInFront(u: seq<Glob>, y: string)
    requires u != [] && !HasStar(u) && AllLiteral(u[1..]) && GlobMatches(u, y) && Free({'@'}, Literals(u))
    ensures forall i | 1 <= i < |y| :: y[i] != '@'
  {
    MatchFirst(false, u, y);
    var k :| FirstTakes(false, u, y, k);
    LiteralOnly(u[1..], y[k..]);
    assert u[0] in u && k <= 1;
    assert Literals(u) == (if u[0].Lit? then [u[0].c] else []) + Literals(u[1..]);
    FreeParts({'@'}, if u[0].Lit? then [u[0].c] else [], Literals(u[1..]));
    assert forall i | k <= i < |y| :: y[i] == y[k..][i - k];
  }

  lemma {:induction false} HeavyEnough(g: seq<Glob>, s: string)
    requires DocumentedMatches(g, s)
    ensures Heavy(s) >= Weight(g)
  {
    if g != [] {
      MatchFirst(true, g, s);
      var k :| FirstTakes(true, g, s, k);
      HeavyEnough(g[1..], s[k..]);
      assert g == [g[0]] + g[1..] && s == s[..k] + s[k..];
      WeightCons(g[0], g[1..]);
      HeavyAppend(s[..k], s[k..]);
    }
  }

  /** Exactly for which masks the documented promise is kept of the hostmasks of all users: those whose bars pair up and
      that have no `?` that anybody notices, and those that match nobody in either reading. */
  lemma ExactlyAsDocumented(nick: string, user: Option<string>, host: Option<string>)
    requires Parts(nick, user, host)
    ensures var m, us, hs := MaskOf(nick, user, host), OrStar(user), OrStar(host);
            var n, u, h := FoldedGlob(nick), FoldedGlob(us), FoldedGlob(hs);
            (forall who | Splittable(who) :: MatchMask([m], who) <==> DocumentedText(m, who))
            <==> || (BarsPair(m, false) && (Marks(n) + Marks(u) + Marks(h) == 0 || Unnoticed(n, u, h)))
                 || (!Reachable(n, u, h)
                     && !Reachable(DocumentedGlob(nick), DocumentedGlob(us), DocumentedGlob(hs)))
  {
    var m, us, hs := MaskOf(nick, user, host), OrStar(user), OrStar(host);
    var n, u, h := FoldedGlob(nick), FoldedGlob(us), FoldedGlob(hs);
    var dn, du, dh := DocumentedGlob(nick), DocumentedGlob(us), DocumentedGlob(hs);
    StarFree();
    CleanParts(nick, us, hs);
    if !Reachable(n, u, h) && !Reachable(dn, du, dh) {
      forall who | Splittable(who)
        ensures !MatchMask([m], who) && !DocumentedText(m, who)
      {
        Unreachable(nick, user, host, who);
      }
    } else if BarsPair(m, false) {
      PartReadings(nick, user, host);
      MaskParts(nick, user, host);
      DocumentedParts(nick, user, host);
      assert forall who :: DocumentedText(m, who) == OneCharacter(m, who);
      QuestionMarkExactly(nick, user, host);
    } else {
      var who := BarsMatter(nick, user, host);
    }
  }

  lemma Unreachable(nick: string, user: Option<string>, host: Option<string>, who: UserInfo)
    requires Parts(nick, user, host) && Splittable(who)
    requires !Reachable(FoldedGlob(nick), FoldedGlob(OrStar(user)), FoldedGlob(OrStar(host)))
    requires !Reachable(DocumentedGlob(nick), DocumentedGlob(OrStar(user)), DocumentedGlob(OrStar(host)))
    ensures var m := MaskOf(nick, user, host); !MatchMask([m], who) && !DocumentedText(m, who)
  {
    var m, us, hs := MaskOf(nick, user, host), OrStar(user), OrStar(host);
    StarFree();
    CleanParts(nick, us, hs);
    MaskParts(nick, user, host);
    DocumentedParts(nick, user, host);
    OneMask(m, who);
    Nobody(FoldedGlob(nick), FoldedGlob(us), FoldedGlob(hs), who);
    Nobody(DocumentedGlob(nick), DocumentedGlob(us), DocumentedGlob(hs), who);
    if DocumentedText(m, who) { ExactIsMatch(DocumentedGlob(ParseMaskComponents(m)), Fold(RenderUserInfo(who))); }
  }

  /** When the bars of a mask do not pair up, some user shows the difference, unless the mask matches nobody in either
      reading. */
  lemma BarsMatter(nick: string, user: Option<string>, host: Option<string>) returns (who: UserInfo)
    requires Parts(nick, user, host) && !BarsPair(MaskOf(nick, user, host), false)
    requires || Reachable(FoldedGlob(nick), FoldedGlob(OrStar(user)), FoldedGlob(OrStar(host)))
             || Reachable(DocumentedGlob(nick), DocumentedGlob(OrStar(user)), DocumentedGlob(OrStar(host)))
    ensures var m := MaskOf(nick, user, host); Splittable(who) && (MatchMask([m], who) <==> !DocumentedText(m, who))
  {
    var m, us, hs := MaskOf(nick, user, host), OrStar(user), OrStar(host);
    var n, u, h := FoldedGlob(nick), FoldedGlob(us), FoldedGlob(hs);
    var dn, du, dh := DocumentedGlob(nick), DocumentedGlob(us), DocumentedGlob(hs);
    StarFree();
    CleanParts(nick, us, hs);
    MaskParts(nick, user, host);
    DocumentedParts(nick, user, host);
    BarsOfMask(m);
    TwoReadings(ParseMaskComponents(m));
    if Reachable(n, u, h) {
      who := Someone(n, u, h);
      ExactIsMatch(Whole(n, u, h), Fold(RenderUserInfo(who)));
      OneMask(m, who);
      if DocumentedText(m, who) { HeavyEnough(Whole(dn, du, dh), Fold(RenderUserInfo(who))); }
    } else {
      who := Someone(dn, du, dh);
      Nobody(n, u, h, who);
      OneMask(m, who);
    }
  }
}
