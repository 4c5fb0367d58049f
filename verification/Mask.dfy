/** The mask compiler (src/Client/Mask.hs): hostmask globs become the text of one anchored regular expression. */
module Masks {
  import opened Text
  import opened UserInfos
  import opened Identifiers

  // ----- The compiler -----

  predicate IsMetaChar(c: char) {
    c in {'^', '\\', '.', '|', '*', '?', '+', '(', ')', '[', ']', '{', '}', '$'}
  }

  /** The only escapes a mask has: a backslash before a wildcard or another backslash. */
  predicate IsEscape(s: string) {
    |s| >= 2 && s[0] == '\\' && s[1] in {'*', '?', '\\'}
  }

  function Translate(s: string): string {
    if s == [] then []
    else if IsEscape(s) then ['\\', s[1]] + Translate(s[2..])
    else if s[0] == '*' then ['.', '*'] + Translate(s[1..])
    else if s[0] == '?' then ['.', '?'] + Translate(s[1..])
    else if IsMetaChar(s[0]) then ['\\', s[0]] + Translate(s[1..])
    else [s[0]] + Translate(s[1..])
  }

  function DefaultWild(x: string): string {
    if x == [] then "*" else x[1..]
  }

  /** Nick, user and host of a mask, `*` for the omitted ones. */
  function ParseMaskComponents(s: string): string {
    var (nickuser, rawhost) := Span({'@'}, s);
    var (nick, rawuser) := Span({'!'}, nickuser);
    nick + "!" + DefaultWild(rawuser) + "@" + DefaultWild(rawhost)
  }

  function Intercalate(sep: string, xs: seq<string>): string {
    if xs == [] then "" else if |xs| == 1 then xs[0] else xs[0] + (sep + Intercalate(sep, xs[1..]))
  }

  function Compiled(masks: seq<string>): seq<string> {
    seq(|masks|, i requires 0 <= i < |masks| => Translate(ParseMaskComponents(Fold(masks[i]))))
  }

  /** The text handed to the regular expression library. */
  function BuildMask(masks: seq<string>): string {
    "^(" + (Intercalate("|", Compiled(masks)) + ")$")
  }

  // ----- What the text means: POSIX extended regular expressions, as far as the compiler uses them -----

  datatype Tok = TChar(c: char) | TDot | TStar | TOpt | TBar | TOpen | TClose | TCaret | TDollar

  /** The token an unescaped character stands for; the metacharacters not listed are outside the subset. */
  function TokOf(c: char): Tok
    requires !Unsupported(c)
  {
    match c
    case '.' => TDot
    case '*' => TStar
    case '?' => TOpt
    case '|' => TBar
    case '(' => TOpen
    case ')' => TClose
    case '^' => TCaret
    case '$' => TDollar
    case _ => TChar(c)
  }

  predicate Unsupported(c: char) {
    c in {'+', '[', ']', '{', '}', '\\'}
  }

  /** Tokens of a regular expression; an escaped metacharacter is literal. */
  function Lex(s: string): Option<seq<Tok>> {
    if s == [] then Some([])
    else if s[0] == '\\' then
      if |s| >= 2 && IsMetaChar(s[1]) then Cons(TChar(s[1]), Lex(s[2..])) else None
    else if Unsupported(s[0]) then None
    else Cons(TokOf(s[0]), Lex(s[1..]))
  }

  function Cons<T>(t: T, ts: Option<seq<T>>): Option<seq<T>> {
    match ts
    case None => None
    case Some(xs) => Some([t] + xs)
  }

  datatype Atom = Just(c: char) | AnyChar
  datatype Quantifier = Once | Optional | Repeated
  datatype Piece = Piece(atom: Atom, q: Quantifier)

  /** Branches separated by bars, each a run of quantified atoms. */
  function ParseBranches(ts: seq<Tok>): Option<seq<seq<Piece>>> {
    if ts == [] then Some([[]])
    else if ts[0] == TBar then Cons([], ParseBranches(ts[1..]))
    else if ts[0].TChar? || ts[0].TDot? then
      var atom := if ts[0].TChar? then Just(ts[0].c) else AnyChar;
      var q :=
        if |ts| == 1 then Once else if ts[1] == TStar then Repeated else if ts[1] == TOpt then Optional else Once;
      Extend(Piece(atom, q), ParseBranches(if q == Once then ts[1..] else ts[2..]))
    else None
  }

  /** Put a piece in front of the first branch. */
  function Extend(p: Piece, bs: Option<seq<seq<Piece>>>): Option<seq<seq<Piece>>> {
    match bs
    case None => None
    case Some(branches) => if branches == [] then None else Some([[p] + branches[0]] + branches[1..])
  }

  /** One group, anchored at both ends. */
  function ParseRegex(s: string): Option<seq<seq<Piece>>> {
    match Lex(s)
    case None => None
    case Some(ts) =>
      var n := |ts|;
      if n >= 4 && ts[0] == TCaret && ts[1] == TOpen && ts[n - 2] == TClose && ts[n - 1] == TDollar
      then ParseBranches(ts[2..n - 2]) else None
  }

  predicate AtomMatches(a: Atom, c: char) {
    a.AnyChar? || a.c == c
  }

  predicate PieceMatches(p: Piece, s: string) {
    match p.q
    case Once => |s| == 1 && AtomMatches(p.atom, s[0])
    case Optional => s == [] || (|s| == 1 && AtomMatches(p.atom, s[0]))
    case Repeated => forall i | 0 <= i < |s| :: AtomMatches(p.atom, s[i])
  }

  predicate BranchMatches(ps: seq<Piece>, s: string) {
    if ps == [] then s == []
    else exists i :: 0 <= i <= |s| && PieceMatches(ps[0], s[..i]) && BranchMatches(ps[1..], s[i..])
  }

  /** A multiline-free anchored expression matches a whole text. */
  predicate RegexMatches(re: string, s: string) {
    var bs := ParseRegex(re);
    bs.Some? && exists k :: 0 <= k < |bs.value| && BranchMatches(bs.value[k], s)
  }

  // ----- What a mask means -----

  datatype Glob = Lit(c: char) | Many | AtMostOne

  /** The mask language: `*` and `?` are wildcards, a backslash makes the next `*`, `?` or backslash literal, and every
      other character stands for itself. */
  function ParseGlob(s: string): seq<Glob> {
    if s == [] then []
    else if IsEscape(s) then [Lit(s[1])] + ParseGlob(s[2..])
    else if s[0] == '*' then [Many] + ParseGlob(s[1..])
    else if s[0] == '?' then [AtMostOne] + ParseGlob(s[1..])
    else [Lit(s[0])] + ParseGlob(s[1..])
  }

  predicate GlobMatches(g: seq<Glob>, s: string) {
    if g == [] then s == []
    else
      match g[0]
      case Lit(c) => s != [] && s[0] == c && GlobMatches(g[1..], s[1..])
      case Many => exists i :: 0 <= i <= |s| && GlobMatches(g[1..], s[i..])
      case AtMostOne => GlobMatches(g[1..], s) || (s != [] && GlobMatches(g[1..], s[1..]))
  }

  // ----- The text of a translated mask reads back as its glob -----

  function ToToks(g: Glob): seq<Tok> {
    match g
    case Lit(c) => [TChar(c)]
    case Many => [TDot, TStar]
    case AtMostOne => [TDot, TOpt]
  }

  function Toks(g: seq<Glob>): seq<Tok> {
    if g == [] then [] else ToToks(g[0]) + Toks(g[1..])
  }

  function ToPiece(g: Glob): Piece {
    match g
    case Lit(c) => Piece(Just(c), Once)
    case Many => Piece(AnyChar, Repeated)
    case AtMostOne => Piece(AnyChar, Optional)
  }

  function Pieces(g: seq<Glob>): seq<Piece> {
    seq(|g|, i requires 0 <= i < |g| => ToPiece(g[i]))
  }

  function Append(a: seq<Tok>, b: Option<seq<Tok>>): Option<seq<Tok>> {
    match b
    case None => None
    case Some(ts) => Some(a + ts)
  }

  /** What the compiler emits for one element of a mask. */
  function Emit(g: Glob): string {
    match g
    case Lit(c) => if IsMetaChar(c) then ['\\', c] else [c]
    case Many => ".*"
    case AtMostOne => ".?"
  }

  lemma LexOne(c: char, rest: string)
    requires !Unsupported(c)
    ensures Lex([c] + rest) == Cons(TokOf(c), Lex(rest))
  {
    assert ([c] + rest)[1..] == rest;
  }

  lemma LexEmit(g: Glob, rest: string)
    ensures Lex(Emit(g) + rest) == Append(ToToks(g), Lex(rest))
  {
    var e := Emit(g);
    if |e| == 1 {
      LexOne(e[0], rest);
    } else if e[0] == '.' {
      assert e + rest == ['.'] + ([e[1]] + rest);
      LexOne('.', [e[1]] + rest);
      LexOne(e[1], rest);
      if Lex(rest).Some? {
        assert [TDot] + ([TokOf(e[1])] + Lex(rest).value) == ToToks(g) + Lex(rest).value;
      }
    } else {
      assert (e + rest)[2..] == rest;
    }
  }

  lemma TranslateStep(s: string)
    requires s != []
    ensures var n := if IsEscape(s) then 2 else 1;
            var g := ParseGlob(s);
            && g != [] && g[1..] == ParseGlob(s[n..])
            && Translate(s) == Emit(g[0]) + Translate(s[n..])
  {}

  lemma ToksStep(g: seq<Glob>, b: Option<seq<Tok>>)
    requires g != []
    ensures Append(Toks(g), b) == Append(ToToks(g[0]), Append(Toks(g[1..]), b))
  {
    if b.Some? {
      assert ToToks(g[0]) + Toks(g[1..]) + b.value == ToToks(g[0]) + (Toks(g[1..]) + b.value);
    }
  }

  lemma {:induction false} LexTranslate(s: string, rest: string)
    ensures Lex(Translate(s) + rest) == Append(Toks(ParseGlob(s)), Lex(rest))
  {
    if s == [] {
      assert [] + rest == rest;
      NothingAppended(Lex(rest));
    } else {
      var g := ParseGlob(s);
      TranslateStep(s);
      var n := if IsEscape(s) then 2 else 1;
      var tail := Translate(s[n..]) + rest;
      assert Translate(s) + rest == Emit(g[0]) + tail;
      LexTranslate(s[n..], rest);
      LexEmit(g[0], tail);
      ToksStep(g, Lex(rest));
    }
  }

  lemma NothingAppended(b: Option<seq<Tok>>)
    ensures Append([], b) == b
  {
    if b.Some? { assert [] + b.value == b.value; }
  }

  /** The bars of the expression are the separators of the list: an escaped bar never splits a mask. */
  function JoinToks(gs: seq<seq<Glob>>): seq<Tok> {
    if gs == [] then [] else if |gs| == 1 then Toks(gs[0]) else Toks(gs[0]) + ([TBar] + JoinToks(gs[1..]))
  }

  function Globs(ms: seq<string>): seq<seq<Glob>> {
    seq(|ms|, i requires 0 <= i < |ms| => ParseGlob(ms[i]))
  }

  function Translations(ms: seq<string>): seq<string> {
    seq(|ms|, i requires 0 <= i < |ms| => Translate(ms[i]))
  }

  lemma {:induction false} LexJoin(ms: seq<string>, rest: string)
    ensures Lex(Intercalate("|", Translations(ms)) + rest) == Append(JoinToks(Globs(ms)), Lex(rest))
  {
    var xs, gs := Translations(ms), Globs(ms);
    if ms == [] {
      assert "" + rest == rest;
      NothingAppended(Lex(rest));
    } else if |ms| == 1 {
      LexTranslate(ms[0], rest);
    } else {
      assert xs[1..] == Translations(ms[1..]) && gs[1..] == Globs(ms[1..]);
      var tail := Intercalate("|", xs[1..]) + rest;
      LexJoin(ms[1..], rest);
      assert Intercalate("|", xs) + rest == xs[0] + (['|'] + tail);
      LexTranslate(ms[0], ['|'] + tail);
      LexOne('|', tail);
      JoinToksStep(gs, Lex(rest));
    }
  }

  lemma JoinToksStep(gs: seq<seq<Glob>>, b: Option<seq<Tok>>)
    requires |gs| > 1
    ensures Append(JoinToks(gs), b) == Append(Toks(gs[0]), Cons(TBar, Append(JoinToks(gs[1..]), b)))
  {
    if b.Some? {
      var t, j := Toks(gs[0]), JoinToks(gs[1..]);
      assert t + ([TBar] + j) + b.value == t + ([TBar] + (j + b.value));
    }
  }

  lemma LexFrame(body: string, ts: seq<Tok>)
    requires Lex(body + ")$") == Some(ts)
    ensures Lex("^(" + (body + ")$")) == Some([TCaret, TOpen] + ts)
  {
    var rest := body + ")$";
    assert "^(" + rest == ['^'] + (['('] + rest);
    LexOne('^', ['('] + rest);
    LexOne('(', rest);
    assert [TCaret] + ([TOpen] + ts) == [TCaret, TOpen] + ts;
  }

  lemma LexEnd()
    ensures Lex(")$") == Some([TClose, TDollar])
  {
    assert ")$" == [')'] + (['$'] + "");
    LexOne(')', ['$'] + "");
    LexOne('$', "");
    assert [TClose] + ([TDollar] + []) == [TClose, TDollar];
  }

  lemma ParsePiece(g: Glob, rest: seq<Tok>)
    requires rest != [] ==> !rest[0].TStar? && !rest[0].TOpt?
    ensures ParseBranches(ToToks(g) + rest) == Extend(ToPiece(g), ParseBranches(rest))
  {
    var t := ToToks(g);
    assert (t + rest)[|t|..] == rest;
  }

  lemma {:induction false} ParseGlobToks(g: seq<Glob>, rest: seq<Tok>)
    requires rest == [] || rest[0] == TBar
    requires ParseBranches(rest).Some? && ParseBranches(rest).value != [] && ParseBranches(rest).value[0] == []
    ensures ParseBranches(Toks(g) + rest) == Some([Pieces(g)] + ParseBranches(rest).value[1..])
  {
    if g == [] {
      assert [] + rest == rest;
      assert Pieces(g) == [];
      assert ParseBranches(rest).value == [[]] + ParseBranches(rest).value[1..];
    } else {
      ParseGlobToks(g[1..], rest);
      var tail := Toks(g[1..]) + rest;
      assert Toks(g) + rest == ToToks(g[0]) + tail;
      if g[1..] != [] { assert Toks(g[1..])[0] == tail[0]; }
      ParsePiece(g[0], tail);
      assert Pieces(g) == [ToPiece(g[0])] + Pieces(g[1..]);
      assert ([Pieces(g[1..])] + ParseBranches(rest).value[1..])[1..] == ParseBranches(rest).value[1..];
    }
  }

  function AllPieces(gs: seq<seq<Glob>>): seq<seq<Piece>> {
    seq(|gs|, i requires 0 <= i < |gs| => Pieces(gs[i]))
  }

  lemma {:induction false} ParseJoin(gs: seq<seq<Glob>>)
    requires gs != []
    ensures ParseBranches(JoinToks(gs)) == Some(AllPieces(gs))
  {
    if |gs| == 1 {
      ParseGlobToks(gs[0], []);
      assert Toks(gs[0]) + [] == Toks(gs[0]);
      assert ParseBranches([]).value[1..] == [];
      assert AllPieces(gs) == [Pieces(gs[0])] + [];
    } else {
      ParseJoin(gs[1..]);
      var rest := [TBar] + JoinToks(gs[1..]);
      assert rest[1..] == JoinToks(gs[1..]);
      var bs := [[]] + AllPieces(gs[1..]);
      assert ParseBranches(rest) == Some(bs);
      ParseGlobToks(gs[0], rest);
      assert bs[1..] == AllPieces(gs[1..]);
      assert AllPieces(gs) == [Pieces(gs[0])] + AllPieces(gs[1..]);
    }
  }

  // ----- The two meanings agree -----

  /** A piece in front of a branch, for the three kinds of pieces a mask gives. */
  lemma SplitFirst(p: Piece, ps: seq<Piece>, s: string)
    ensures p.q == Once ==>
              (BranchMatches([p] + ps, s) <==> s != [] && AtomMatches(p.atom, s[0]) && BranchMatches(ps, s[1..]))
    ensures p == Piece(AnyChar, Optional) ==>
              (BranchMatches([p] + ps, s) <==> BranchMatches(ps, s) || (s != [] && BranchMatches(ps, s[1..])))
    ensures p == Piece(AnyChar, Repeated) ==>
              (BranchMatches([p] + ps, s) <==> exists i :: 0 <= i <= |s| && BranchMatches(ps, s[i..]))
  {
    assert ([p] + ps)[1..] == ps;
    assert s[0..] == s && s[..0] == [];
    if BranchMatches([p] + ps, s) {
      var i :| 0 <= i <= |s| && PieceMatches(p, s[..i]) && BranchMatches(ps, s[i..]);
    }
    if s != [] && BranchMatches(ps, s[1..]) {
      assert AtomMatches(p.atom, s[0]) ==> PieceMatches(p, s[..1]);
    }
    if p == Piece(AnyChar, Repeated) {
      forall i | 0 <= i <= |s| && BranchMatches(ps, s[i..])
        ensures BranchMatches([p] + ps, s)
      {
        assert PieceMatches(p, s[..i]);
      }
    }
  }

  lemma {:induction false} PiecesMatch(g: seq<Glob>, s: string)
    ensures BranchMatches(Pieces(g), s) <==> GlobMatches(g, s)
  {
    if g != [] {
      assert Pieces(g) == [ToPiece(g[0])] + Pieces(g[1..]);
      forall i | 0 <= i <= |s|
        ensures BranchMatches(Pieces(g[1..]), s[i..]) <==> GlobMatches(g[1..], s[i..])
      {
        PiecesMatch(g[1..], s[i..]);
      }
      assert s[0..] == s;
      SplitFirst(ToPiece(g[0]), Pieces(g[1..]), s);
    }
  }

  // ----- Main results -----

  function Completed(masks: seq<string>): seq<string> {
    seq(|masks|, i requires 0 <= i < |masks| => ParseMaskComponents(Fold(masks[i])))
  }

  lemma Unframed(ts: seq<Tok>)
    ensures var all := [TCaret, TOpen] + (ts + [TClose, TDollar]);
            all[2..|all| - 2] == ts && all[0] == TCaret && all[1] == TOpen
            && all[|all| - 2] == TClose && all[|all| - 1] == TDollar
  {}

  /** The text reads back as one branch for each mask, its glob; no mask at all gives the empty group. */
  lemma BuildMaskParses(masks: seq<string>)
    ensures ParseRegex(BuildMask(masks)) == Some(if masks == [] then [[]] else AllPieces(Globs(Completed(masks))))
  {
    var ms := Completed(masks);
    var body := Intercalate("|", Compiled(masks));
    assert Compiled(masks) == Translations(ms);
    LexJoin(ms, ")$");
    LexEnd();
    var ts := JoinToks(Globs(ms));
    LexFrame(body, ts + [TClose, TDollar]);
    Unframed(ts);
    if masks != [] {
      ParseJoin(Globs(ms));
    }
  }

  /** Compilation keeps the meaning, for every list of masks with whatever metacharacters in them: the expression
      accepts a text exactly when one of the folded and completed masks matches it as a glob. An empty list accepts
      the empty text and nothing else. */
  lemma MaskMeaning(masks: seq<string>, t: string)
    ensures RegexMatches(BuildMask(masks), t) <==>
            if masks == [] then t == ""
            else exists i :: 0 <= i < |masks| && GlobMatches(ParseGlob(ParseMaskComponents(Fold(masks[i]))), t)
  {
    BuildMaskParses(masks);
    if masks == [] {
      var bs: seq<seq<Piece>> := [[]];
      assert BranchMatches(bs[0], t) <==> t == "";
    } else {
      var gs := Globs(Completed(masks));
      forall i | 0 <= i < |masks|
        ensures BranchMatches(AllPieces(gs)[i], t) <==> GlobMatches(ParseGlob(ParseMaskComponents(Fold(masks[i]))), t)
      {
        PiecesMatch(gs[i], t);
      }
    }
  }

  predicate MatchMask(masks: seq<string>, u: UserInfo) {
    RegexMatches(BuildMask(masks), Fold(RenderUserInfo(u)))
  }

  /** A component as it is written in a mask: missing, or after its delimiter. */
  function Written(delimiter: string, part: Option<string>): string {
    match part
    case None => ""
    case Some(x) => delimiter + x
  }

  function OrStar(part: Option<string>): string {
    match part
    case None => "*"
    case Some(x) => x
  }

  /** A component with its delimiter is kept, even an empty one; a missing one becomes `*`. Every mask is covered: the
      delimiters that count are the first `@` and the first `!` before it. */
  lemma MissingComponents(nick: string, user: Option<string>, host: Option<string>)
    requires Free({'!', '@'}, nick) && (user.Some? ==> Free({'@'}, user.value))
    ensures ParseMaskComponents(nick + Written("!", user) + Written("@", host))
         == nick + "!" + OrStar(user) + "@" + OrStar(host)
  {
    SpanUnique({'@'}, nick + Written("!", user), Written("@", host));
    SpanUnique({'!'}, nick, Written("!", user));
  }

  lemma Delimited(delimiter: char, raw: string)
    requires raw != "" ==> raw[0] == delimiter
    ensures Written([delimiter], if raw == "" then None else Some(raw[1..])) == raw
  {}

  lemma FreeParts(stop: set<char>, a: string, b: string)
    requires Free(stop, a + b)
    ensures Free(stop, a) && Free(stop, b)
  {
    assert forall i | 0 <= i < |a| :: a[i] == (a + b)[i];
    assert forall i | 0 <= i < |b| :: b[i] == (a + b)[|a| + i];
  }

  lemma EveryMask(s: string) returns (nick: string, user: Option<string>, host: Option<string>)
    ensures Free({'!', '@'}, nick) && (user.Some? ==> Free({'@'}, user.value))
    ensures s == nick + Written("!", user) + Written("@", host)
  {
    var (nickuser, rawhost) := Span({'@'}, s);
    var (n, rawuser) := Span({'!'}, nickuser);
    FreeParts({'@'}, n, rawuser);
    nick := n;
    user := if rawuser == "" then None else Some(rawuser[1..]);
    host := if rawhost == "" then None else Some(rawhost[1..]);
    Delimited('!', rawuser);
    Delimited('@', rawhost);
  }
}
