/** The IRC wire format: hand-ordered parser and printer (lib/src/Irc/RawIrcMsg.hs). */
module RawIrcMsgs {
  import opened Text
  import opened UserInfos

  /** The value has had the tag unescaping applied. */
  datatype TagEntry = TagEntry(key: string, val: string)

  datatype RawIrcMsg = RawIrcMsg(tags: seq<TagEntry>, prefix: Option<UserInfo>, command: string, params: seq<string>)

  const MAX_MIDDLE_PARAMS: nat := 14

  // ----- Tag values -----

  function Unescape(s: string): string {
    if s == [] then []
    else if |s| >= 2 && s[0] == '\\' && s[1] == ':' then [';'] + Unescape(s[2..])
    else if |s| >= 2 && s[0] == '\\' && s[1] == 's' then [' '] + Unescape(s[2..])
    else if |s| >= 2 && s[0] == '\\' && s[1] == '\\' then ['\\'] + Unescape(s[2..])
    else if |s| >= 2 && s[0] == '\\' && s[1] == 'r' then ['\r'] + Unescape(s[2..])
    else if |s| >= 2 && s[0] == '\\' && s[1] == 'n' then ['\n'] + Unescape(s[2..])
    else [s[0]] + Unescape(s[1..])
  }

  function EscapeChar(c: char): string {
    match c
    case ';' => "\\:"
    case ' ' => "\\s"
    case '\\' => "\\\\"
    case '\r' => "\\r"
    case '\n' => "\\n"
    case _ => [c]
  }

  function Escape(s: string): (r: string)
    ensures Free({';', ' ', '\r', '\n'}, r)
    ensures s != [] ==> r != []
  {
    if s == [] then [] else EscapeChar(s[0]) + Escape(s[1..])
  }

  lemma UnescapeOne(c: char, rest: string)
    ensures Unescape(EscapeChar(c) + rest) == [c] + Unescape(rest)
  {
    var e := EscapeChar(c);
    assert (e + rest)[|e|..] == rest;
  }

  /** Escaping loses nothing, whatever the value contains. */
  lemma {:induction false} UnescapeEscape(s: string)
    ensures Unescape(Escape(s)) == s
  {
    if s != [] {
      UnescapeEscape(s[1..]);
      UnescapeOne(s[0], Escape(s[1..]));
      assert s == [s[0]] + s[1..];
    }
  }

  /** What each escape stands for: a backslash before anything else, or at the end, stays, and so does every other
      character. */
  lemma EscapesRead(c: char, rest: string)
    ensures Unescape("\\:" + rest) == ";" + Unescape(rest)
    ensures Unescape("\\s" + rest) == " " + Unescape(rest)
    ensures Unescape("\\\\" + rest) == "\\" + Unescape(rest)
    ensures Unescape("\\r" + rest) == "\r" + Unescape(rest)
    ensures Unescape("\\n" + rest) == "\n" + Unescape(rest)
    ensures c !in {':', 's', '\\', 'r', 'n'} ==> Unescape("\\" + [c] + rest) == "\\" + [c] + Unescape(rest)
    ensures c != '\\' ==> Unescape([c] + rest) == [c] + Unescape(rest)
    ensures Unescape("\\") == "\\"
  {
    var s := "\\" + [c] + rest;
    assert ([c] + rest)[1..] == rest;
    assert s[0] == '\\' && s[1] == c && s[1..] == [c] + rest;
    assert "\\"[1..] == "";
    TwoCharacters(c, rest);
  }

  lemma TwoCharacters(c: char, rest: string)
    ensures forall d :: (['\\', d] + rest)[2..] == rest
    ensures "\\" + [c] + Unescape(rest) == "\\" + ([c] + Unescape(rest))
  {}

  lemma Ordinary(c: char, rest: string)
    ensures c != '\\' ==> Unescape([c] + rest) == [c] + Unescape(rest)
    ensures c !in {';', ' ', '\\', '\r', '\n'} ==> Escape([c] + rest) == [c] + Escape(rest)
  {
    assert ([c] + rest)[1..] == rest;
  }

  lemma Cons(a: string, b: string)
    requires a != []
    ensures a + b == [a[0]] + (a[1..] + b)
  {}

  /** A value without backslashes is read as it is. */
  lemma {:induction false} PlainValue(a: string, rest: string)
    requires '\\' !in a
    ensures Unescape(a + rest) == a + Unescape(rest)
  {
    if a == [] {
      assert a + rest == rest && a + Unescape(rest) == Unescape(rest);
    } else {
      Ordinary(a[0], a[1..] + rest);
      PlainValue(a[1..], rest);
      Cons(a, rest);
      Cons(a, Unescape(rest));
    }
  }

  /** How each character is written. */
  lemma EscapesWritten(a: string, b: string)
    ensures Escape(a + b) == Escape(a) + Escape(b)
    ensures Escape(";") == "\\:" && Escape(" ") == "\\s" && Escape("\\") == "\\\\"
    ensures Escape("\r") == "\\r" && Escape("\n") == "\\n"
    ensures Free({';', ' ', '\\', '\r', '\n'}, a) ==> Escape(a) == a
  {
    OneEscape(';');
    OneEscape(' ');
    OneEscape('\\');
    OneEscape('\r');
    OneEscape('\n');
    EscapeParts(a, b);
  }

  lemma OneEscape(c: char)
    ensures Escape([c]) == EscapeChar(c)
  {
    assert [c][1..] == [];
    assert EscapeChar(c) + "" == EscapeChar(c);
  }

  lemma {:induction false} EscapeParts(a: string, b: string)
    ensures Escape(a + b) == Escape(a) + Escape(b)
    ensures Free({';', ' ', '\\', '\r', '\n'}, a) ==> Escape(a) == a
  {
    if a == [] {
      assert a + b == b;
    } else {
      EscapeParts(a[1..], b);
      Cons(a, b);
      assert (a + b)[1..] == a[1..] + b;
      Ordinary(a[0], a[1..]);
      assert a == [a[0]] + a[1..];
      Joined(EscapeChar(a[0]), Escape(a[1..]), Escape(b));
    }
  }

  lemma Joined(a: string, b: string, c: string)
    ensures a + b + c == a + (b + c)
  {}

  // ----- Parser -----

  function ParseTag(s: string): (r: (TagEntry, string))
    ensures |r.1| <= |s|
    ensures r.1 != [] ==> r.1[0] in {';', ' '}
    ensures Free({'=', ';', ' '}, r.0.key)
  {
    var (key, r1) := Span({'=', ';', ' '}, s);
    var r2 := if r1 != [] && r1[0] == '=' then r1[1..] else r1;
    var (val, r3) := Span({';', ' '}, r2);
    (TagEntry(key, Unescape(val)), r3)
  }

  function ParseTagList(s: string): (r: (seq<TagEntry>, string))
    ensures |r.0| >= 1
    ensures r.1 != [] ==> r.1[0] == ' '
    ensures forall i | 0 <= i < |r.0| :: Free({'=', ';', ' '}, r.0[i].key)
    decreases |s|
  {
    var (t, rest) := ParseTag(s);
    if rest != [] && rest[0] == ';' then
      var (ts, end) := ParseTagList(rest[1..]);
      ([t] + ts, end)
    else
      ([t], rest)
  }

  /** The next space-delimited lexeme, and what follows the spaces after it. */
  function ParseToken(s: string): (r: Option<(string, string)>)
    ensures r.Some? ==> IsToken(r.value.0)
    ensures r.Some? ==> |r.value.1| < |s| && r.value.0 <= s
    ensures r.Some? && r.value.1 != [] ==> r.value.1[0] != ' '
    ensures r.None? <==> s == [] || s[0] == ' '
  {
    var (x, rest) := Span({' '}, s);
    if x == [] then None else Some((x, SkipSpaces(rest)))
  }

  predicate IsToken(s: string) {
    s != [] && Free({' '}, s)
  }

  function ParseParams(n: nat, s: string): Option<seq<string>>
    decreases n
  {
    if s == [] then Some([])
    else if s[0] == ':' then Some([s[1..]])
    else if n == 0 then Some([s])
    else
      match ParseToken(s)
      case None => None
      case Some((x, rest)) =>
        match ParseParams(n - 1, rest)
        case None => None
        case Some(xs) => Some([x] + xs)
  }

  function ParseTags(t: string): (seq<TagEntry>, string) {
    if t != [] && t[0] == '@' then
      var (tags, r) := ParseTagList(t[1..]);
      (tags, SkipSpaces(r))
    else ([], t)
  }

  function ParsePrefix(t: string): Option<(Option<UserInfo>, string)> {
    if t != [] && t[0] == ':' then
      match ParseToken(t[1..])
      case None => None
      case Some((tok, rest)) => Some((Some(ParseUserInfo(tok)), rest))
    else Some((None, t))
  }

  function ParseRawIrcMsg(t: string): Option<RawIrcMsg> {
    ParseMessage(MAX_MIDDLE_PARAMS, t)
  }

  /** The parser for any limit on the number of middle parameters. */
  function ParseMessage(n: nat, t: string): Option<RawIrcMsg> {
    var (tags, t1) := ParseTags(t);
    match ParsePrefix(t1)
    case None => None
    case Some((prefix, t2)) =>
      match ParseToken(t2)
      case None => None
      case Some((cmd, t3)) =>
        match ParseParams(n, t3)
        case None => None
        case Some(params) => Some(RawIrcMsg(tags, prefix, cmd, params))
  }

  // ----- Printer -----

  function RenderTag(t: TagEntry): string {
    if t.val == "" then t.key else t.key + "=" + Escape(t.val)
  }

  function JoinTags(tags: seq<TagEntry>): string
    requires tags != []
  {
    if |tags| == 1 then RenderTag(tags[0]) else RenderTag(tags[0]) + ";" + JoinTags(tags[1..])
  }

  function RenderTags(tags: seq<TagEntry>): string {
    if tags == [] then "" else "@" + JoinTags(tags) + " "
  }

  function RenderPrefix(p: Option<UserInfo>): string {
    match p
    case None => ""
    case Some(u) => ":" + RenderUserInfo(u) + " "
  }

  predicate NeedsColon(x: string) {
    ' ' in x || x == "" || x[0] == ':'
  }

  function BuildParams(ps: seq<string>): string {
    if ps == [] then ""
    else if |ps| == 1 && NeedsColon(ps[0]) then " :" + ps[0]
    else if ps[0] == "" then " *" + BuildParams(ps[1..])
    else " " + ps[0] + BuildParams(ps[1..])
  }

  function RenderRawIrcMsg(m: RawIrcMsg): string {
    RenderTags(m.tags) + RenderPrefix(m.prefix) + m.command + BuildParams(m.params) + "\r\n"
  }

  /** A rendered message without its line terminator: what the peer's parser is given. */
  function Wire(m: RawIrcMsg): (w: string)
    ensures w + "\r\n" == RenderRawIrcMsg(m)
  {
    var r := RenderRawIrcMsg(m);
    r[..|r| - 2]
  }

  // ----- The printer's domain -----

  predicate IsMiddle(x: string) {
    IsToken(x) && x[0] != ':'
  }

  predicate GoodParams(n: nat, ps: seq<string>) {
    |ps| <= n + 1 && forall i | 0 <= i < |ps| - 1 :: IsMiddle(ps[i])
  }

  predicate GoodTags(tags: seq<TagEntry>) {
    forall i | 0 <= i < |tags| :: Free({'=', ';', ' '}, tags[i].key)
  }

  predicate GoodPrefix(u: UserInfo) {
    Splittable(u) && Free({' '}, u.nick) && Free({' '}, u.name) && Free({' '}, u.host)
  }

  /** Everything a parse result satisfies, the three-times-empty prefix included. */
  predicate Parsed(n: nat, m: RawIrcMsg) {
    && GoodTags(m.tags)
    && (m.prefix.Some? ==> GoodPrefix(m.prefix.value))
    && IsToken(m.command)
    && (m.prefix.None? ==> m.command[0] != ':')
    && (m.prefix.None? && m.tags == [] ==> m.command[0] != '@')
    && GoodParams(n, m.params)
  }

  /** The messages the wire format can carry. */
  predicate WellFormed(m: RawIrcMsg) {
    Parsed(14, m) && m.prefix != Some(NOBODY)
  }

  // ----- Every parse is well formed -----

  lemma {:induction false} ParamsShape(n: nat, s: string)
    requires s != [] ==> s[0] != ' '
    ensures ParseParams(n, s).Some? && GoodParams(n, ParseParams(n, s).value)
    ensures n > 0 && s != [] && s[0] != ':' ==> IsMiddle(ParseParams(n, s).value[0])
    decreases n
  {
    if s != [] && s[0] != ':' && n > 0 {
      var (x, rest) := ParseToken(s).value;
      ParamsShape(n - 1, rest);
      var xs := ParseParams(n - 1, rest).value;
      assert ParseParams(n, s) == Some([x] + xs);
      assert IsMiddle(x);
      forall i | 0 <= i < |xs|
        ensures IsMiddle(([x] + xs)[i])
      {
        if i > 0 { assert ([x] + xs)[i] == xs[i - 1]; }
      }
    }
  }

  lemma HostmaskFree(x: string)
    requires Free({' '}, x)
    ensures GoodPrefix(ParseUserInfo(x))
  {
    var (nickuser, host) := Span({'@'}, x);
    var (nick, user) := Span({'!'}, nickuser);
    assert forall i | 0 <= i < |nickuser| :: nickuser[i] == x[i];
    assert forall i | 0 <= i < |host| :: host[i] == x[|nickuser| + i];
    assert forall i | 0 <= i < |user| :: user[i] == nickuser[|nick| + i];
    assert forall i | 0 <= i < |nick| :: nick[i] == nickuser[i];
  }

  lemma ParseShape(n: nat, t: string)
    ensures ParseMessage(n, t).Some? ==> Parsed(n, ParseMessage(n, t).value)
  {
    var (tags, t1) := ParseTags(t);
    if ParsePrefix(t1).Some? {
      var (prefix, t2) := ParsePrefix(t1).value;
      if prefix.Some? {
        HostmaskFree(ParseToken(t1[1..]).value.0);
      }
      if ParseToken(t2).Some? {
        var (cmd, t3) := ParseToken(t2).value;
        assert cmd[0] == t2[0];
        ParamsShape(n, t3);
      }
    }
  }

  // ----- Every well-formed message survives, however it is spaced -----

  /** How a sender may vary the spelling: extra spaces in each gap (`gap(k)` before the k-th parameter from the end,
      `gap(0)` after the last one), and a colon before a last parameter that does not need it. */
  datatype Style = Style(tagGap: nat, prefixGap: nat, gap: nat -> nat, colon: bool)

  function Spaces(k: nat): (s: string)
    ensures AllSpaces(s) && |s| == k
  {
    seq(k, i => ' ')
  }

  /** A last parameter that would be misread without its colon, when `n` more middle parameters are allowed. */
  predicate MustColon(n: nat, x: string) {
    x == "" || x[0] == ':' || (if n > 0 then ' ' in x else x[0] == ' ')
  }

  function SpellParams(n: nat, ps: seq<string>, st: Style): string
    requires GoodParams(n, ps)
    decreases n
  {
    if ps == [] then Spaces(st.gap(0))
    else
      var sp := Spaces(1 + st.gap(|ps|));
      if |ps| == 1 && (st.colon || MustColon(n, ps[0])) then sp + (":" + ps[0])
      else if n == 0 then sp + ps[0]
      else
        assert GoodParams(n - 1, ps[1..]);
        sp + (ps[0] + SpellParams(n - 1, ps[1..], st))
  }

  function SpellPrefix(p: Option<UserInfo>, st: Style): string {
    match p
    case None => ""
    case Some(u) => ":" + (RenderUserInfo(u) + Spaces(1 + st.prefixGap))
  }

  function SpellTags(tags: seq<TagEntry>, st: Style): string {
    if tags == [] then "" else "@" + (JoinTags(tags) + Spaces(1 + st.tagGap))
  }

  function Spell(n: nat, m: RawIrcMsg, st: Style): string
    requires GoodParams(n, m.params)
  {
    SpellTags(m.tags, st) + (SpellPrefix(m.prefix, st) + (m.command + SpellParams(n, m.params, st)))
  }

  lemma TagBack(t: TagEntry, rest: string)
    requires Free({'=', ';', ' '}, t.key)
    requires rest != [] ==> rest[0] in {';', ' '}
    ensures ParseTag(RenderTag(t) + rest) == (t, rest)
  {
    if t.val == "" {
      SpanUnique({'=', ';', ' '}, t.key, rest);
      assert "" + rest == rest;
      SpanUnique({';', ' '}, "", rest);
    } else {
      var e := Escape(t.val);
      assert RenderTag(t) + rest == t.key + ("=" + e + rest);
      SpanUnique({'=', ';', ' '}, t.key, "=" + e + rest);
      assert ("=" + e + rest)[1..] == e + rest;
      SpanUnique({';', ' '}, e, rest);
      UnescapeEscape(t.val);
    }
  }

  lemma {:induction false} TagListBack(tags: seq<TagEntry>, rest: string)
    requires tags != [] && GoodTags(tags)
    requires rest != [] ==> rest[0] == ' '
    ensures ParseTagList(JoinTags(tags) + rest) == (tags, rest)
  {
    var t := tags[0];
    if |tags| == 1 {
      TagBack(t, rest);
      assert tags == [t];
    } else {
      var tail := JoinTags(tags[1..]) + rest;
      Regroup(RenderTag(t), ";", JoinTags(tags[1..]), rest);
      TagBack(t, ";" + tail);
      TagListBack(tags[1..], rest);
      TagListStep(JoinTags(tags) + rest, t, tail);
      assert tags == [t] + tags[1..];
    }
  }

  lemma Regroup(a: string, b: string, c: string, d: string)
    ensures a + b + c + d == a + (b + (c + d))
  {}

  lemma TagListStep(s: string, t: TagEntry, tail: string)
    requires ParseTag(s) == (t, ";" + tail)
    ensures ParseTagList(s) == ([t] + ParseTagList(tail).0, ParseTagList(tail).1)
  {
    assert (";" + tail)[1..] == tail;
  }

  lemma TokenBack(x: string, sp: string, rest: string)
    requires IsToken(x) && AllSpaces(sp)
    requires rest != [] ==> sp != [] && rest[0] != ' '
    ensures ParseToken(x + (sp + rest)) == Some((x, rest))
  {
    SpanUnique({' '}, x, sp + rest);
    SkipSpacesUnique(sp, rest);
  }

  lemma TokenThenBlank(x: string, s: string)
    requires IsToken(x) && (s != [] ==> s[0] == ' ')
    ensures ParseToken(x + s) == Some((x, SkipSpaces(s)))
  {
    SpanUnique({' '}, x, s);
  }

  lemma {:induction false} ParamsBack(n: nat, ps: seq<string>, st: Style)
    requires GoodParams(n, ps)
    ensures var s := SpellParams(n, ps, st);
            && (s != [] ==> s[0] == ' ')
            && ParseParams(n, SkipSpaces(s)) == Some(ps)
    decreases n
  {
    if ps == [] {
      var s := Spaces(st.gap(0));
      assert s + "" == s;
      SkipSpacesUnique(s, "");
    } else if |ps| == 1 && (n == 0 || st.colon || MustColon(n, ps[0])) {
      assert ps == [ps[0]];
      LastBack(n, ps[0], st);
    } else {
      assert GoodParams(n - 1, ps[1..]);
      ParamsBack(n - 1, ps[1..], st);
      var sp, tail := Spaces(1 + st.gap(|ps|)), SpellParams(n - 1, ps[1..], st);
      MiddleBack(n, sp, ps[0], tail, ps[1..]);
      assert ps == [ps[0]] + ps[1..] && (sp + (ps[0] + tail))[0] == sp[0];
    }
  }

  lemma LastBack(n: nat, x: string, st: Style)
    requires n == 0 || st.colon || MustColon(n, x)
    ensures var s := SpellParams(n, [x], st); s != [] && s[0] == ' ' && ParseParams(n, SkipSpaces(s)) == Some([x])
  {
    var sp := Spaces(1 + st.gap(1));
    if st.colon || MustColon(n, x) {
      SkipSpacesUnique(sp, ":" + x);
      assert (":" + x)[1..] == x;
    } else {
      SkipSpacesUnique(sp, x);
    }
  }

  lemma MiddleBack(n: nat, sp: string, x: string, tail: string, xs: seq<string>)
    requires n > 0 && AllSpaces(sp) && IsMiddle(x)
    requires tail != [] ==> tail[0] == ' '
    requires ParseParams(n - 1, SkipSpaces(tail)) == Some(xs)
    ensures ParseParams(n, SkipSpaces(sp + (x + tail))) == Some([x] + xs)
  {
    var s := x + tail;
    SkipSpacesUnique(sp, s);
    TokenThenBlank(x, tail);
    ParamStep(n, s, x, SkipSpaces(tail), xs);
  }

  lemma ParamStep(n: nat, s: string, x: string, rest: string, xs: seq<string>)
    requires n > 0 && s != [] && s[0] != ':'
    requires ParseToken(s) == Some((x, rest)) && ParseParams(n - 1, rest) == Some(xs)
    ensures ParseParams(n, s) == Some([x] + xs)
  {}

  lemma TagsBack(tags: seq<TagEntry>, st: Style, rest: string)
    requires GoodTags(tags)
    requires rest != [] && rest[0] != ' ' && (tags == [] ==> rest[0] != '@')
    ensures ParseTags(SpellTags(tags, st) + rest) == (tags, rest)
  {
    if tags == [] {
      assert "" + rest == rest;
    } else {
      var sp := Spaces(1 + st.tagGap);
      var list := JoinTags(tags) + (sp + rest);
      assert SpellTags(tags, st) + rest == "@" + list && ("@" + list)[1..] == list;
      TagListBack(tags, sp + rest);
      SkipSpacesUnique(sp, rest);
    }
  }

  lemma HostmaskToken(u: UserInfo)
    requires GoodPrefix(u) && u != NOBODY
    ensures IsToken(RenderUserInfo(u))
  {}

  lemma PrefixBack(p: Option<UserInfo>, st: Style, rest: string)
    requires p.Some? ==> GoodPrefix(p.value)
    requires rest != [] && rest[0] != ' ' && (p.None? ==> rest[0] != ':')
    ensures p != Some(NOBODY) ==> ParsePrefix(SpellPrefix(p, st) + rest) == Some((p, rest))
    ensures p == Some(NOBODY) ==> ParsePrefix(SpellPrefix(p, st) + rest) == None
  {
    var t := SpellPrefix(p, st) + rest;
    match p
    case None => assert t == rest;
    case Some(u) => HostmaskBack(u, Spaces(1 + st.prefixGap), rest);
  }

  lemma HostmaskBack(u: UserInfo, sp: string, rest: string)
    requires GoodPrefix(u) && AllSpaces(sp) && sp != [] && rest != [] && rest[0] != ' '
    ensures ParsePrefix(":" + (RenderUserInfo(u) + sp) + rest) == if u == NOBODY then None else Some((Some(u), rest))
  {
    var t, token := ":" + (RenderUserInfo(u) + sp) + rest, RenderUserInfo(u) + (sp + rest);
    assert t[1..] == token;
    if u == NOBODY {
      assert token[0] == sp[0] == ' ';
    } else {
      HostmaskToken(u);
      TokenBack(RenderUserInfo(u), sp, rest);
      UserInfoRoundTrip(u);
    }
  }

  /** The parser reads a message back from every spelling of it: extra spaces and optional colons change nothing.
      A prefix with three empty fields is the one thing that cannot be spelled. */
  lemma SpellParse(n: nat, m: RawIrcMsg, st: Style)
    requires Parsed(n, m)
    ensures ParseMessage(n, Spell(n, m, st)) == if m.prefix == Some(NOBODY) then None else Some(m)
  {
    var params := SpellParams(n, m.params, st);
    ParamsBack(n, m.params, st);
    TokenThenBlank(m.command, params);
    var cmd := m.command + params;
    PrefixBack(m.prefix, st, cmd);
    var body := SpellPrefix(m.prefix, st) + cmd;
    assert body[0] == if m.prefix.None? then cmd[0] else ':';
    TagsBack(m.tags, st, body);
  }

  predicate LastNeedsColon(ps: seq<string>) {
    ps != [] && NeedsColon(ps[|ps| - 1])
  }

  /** The style of the printer: no spare spaces, a colon exactly where `NeedsColon` asks for it. */
  function Printed(ps: seq<string>): Style {
    Style(0, 0, k => 0, LastNeedsColon(ps))
  }

  lemma LastIsSpelling(n: nat, x: string, st: Style)
    requires st.gap(0) == st.gap(1) == 0 && st.colon == NeedsColon(x)
    ensures BuildParams([x]) == SpellParams(n, [x], st)
  {
    assert Spaces(1) == " " && Spaces(0) == "";
    assert [x][1..] == [];
    assert BuildParams([]) == "";
    assert " " + (":" + x) == " :" + x;
    assert x + "" == x;
    if n > 0 {
      assert SpellParams(n - 1, [], st) == "";
    }
  }

  lemma MiddleIsSpelling(n: nat, ps: seq<string>, st: Style)
    requires GoodParams(n, ps) && |ps| > 1 && st.gap(|ps|) == 0
    ensures GoodParams(n - 1, ps[1..])
    ensures BuildParams(ps) == " " + ps[0] + BuildParams(ps[1..])
    ensures SpellParams(n, ps, st) == " " + ps[0] + SpellParams(n - 1, ps[1..], st)
  {
    var x, tail := ps[0], SpellParams(n - 1, ps[1..], st);
    assert IsMiddle(x);
    assert Spaces(1 + st.gap(|ps|)) == " ";
    assert " " + (x + tail) == " " + x + tail;
  }

  /** The printer is one of the spellings. */
  lemma {:induction false} BuildIsSpelling(n: nat, ps: seq<string>, st: Style)
    requires GoodParams(n, ps)
    requires (forall k: nat :: st.gap(k) == 0) && (ps != [] ==> st.colon == LastNeedsColon(ps))
    ensures BuildParams(ps) == SpellParams(n, ps, st)
    decreases n
  {
    if ps == [] {
      assert st.gap(0) == 0;
    } else if |ps| == 1 {
      assert ps == [ps[0]];
      assert st.gap(0) == st.gap(1) == 0;
      LastIsSpelling(n, ps[0], st);
    } else {
      assert st.gap(|ps|) == 0;
      MiddleIsSpelling(n, ps, st);
      assert LastNeedsColon(ps) == LastNeedsColon(ps[1..]);
      BuildIsSpelling(n - 1, ps[1..], st);
    }
  }

  lemma WireIsSpelling(n: nat, m: RawIrcMsg)
    requires GoodParams(n, m.params)
    ensures Wire(m) == Spell(n, m, Printed(m.params))
  {
    var st := Printed(m.params);
    BuildIsSpelling(n, m.params, st);
    TagsPlain(m.tags, st);
    PrefixPlain(m.prefix, st);
    Regroup(RenderTags(m.tags), RenderPrefix(m.prefix), m.command, BuildParams(m.params));
  }

  lemma TagsPlain(tags: seq<TagEntry>, st: Style)
    requires st.tagGap == 0
    ensures SpellTags(tags, st) == RenderTags(tags)
  {
    assert Spaces(1) == " ";
  }

  lemma PrefixPlain(p: Option<UserInfo>, st: Style)
    requires st.prefixGap == 0
    ensures SpellPrefix(p, st) == RenderPrefix(p)
  {
    assert Spaces(1) == " ";
  }

  // ----- Main results -----

  /** The wire format carries exactly the well-formed messages: printing and parsing gives the message back if and
      only if it is well formed, whatever its tags, prefix, command and parameters are. */
  lemma RoundTrip(m: RawIrcMsg)
    ensures ParseRawIrcMsg(Wire(m)) == Some(m) <==> WellFormed(m)
  {
    ParseShape(MAX_MIDDLE_PARAMS, Wire(m));
    if Parsed(MAX_MIDDLE_PARAMS, m) {
      var st := Printed(m.params);
      WireIsSpelling(MAX_MIDDLE_PARAMS, m);
      SpellParse(MAX_MIDDLE_PARAMS, m, st);
    }
  }

  /** Whatever a peer sends, if the client can parse it then printing the result and parsing that again changes
      nothing, unless the prefix token was one of `!`, `@`, `!@`: then what is printed does not parse at all. */
  lemma ParsePrintParse(t: string)
    requires ParseRawIrcMsg(t).Some?
    ensures var m := ParseRawIrcMsg(t).value;
            ParseRawIrcMsg(Wire(m)) == if m.prefix == Some(NOBODY) then None else Some(m)
  {
    var m := ParseRawIrcMsg(t).value;
    ParseShape(MAX_MIDDLE_PARAMS, t);
    var st := Printed(m.params);
    WireIsSpelling(MAX_MIDDLE_PARAMS, m);
    SpellParse(MAX_MIDDLE_PARAMS, m, st);
  }

  /** When a parsed message has the unprintable prefix, in terms of the text that was received. */
  lemma UnprintablePrefixTokens(t: string)
    requires ParseRawIrcMsg(t).Some?
    ensures ParseRawIrcMsg(t).value.prefix == Some(NOBODY)
       <==> var t1 := ParseTags(t).1;
            t1 != [] && t1[0] == ':' && ParseToken(t1[1..]).Some? && ParseToken(t1[1..]).value.0 in {"!", "@", "!@"}
  {
    var t1 := ParseTags(t).1;
    if t1 != [] && t1[0] == ':' && ParseToken(t1[1..]).Some? {
      EmptyHostmasks(ParseToken(t1[1..]).value.0);
    }
  }

  /** A text of that kind is `:! X`: it can be parsed, and what is printed for it, `: X`, cannot. */
  lemma UnprintableExample()
    ensures ParseRawIrcMsg(":! X") == Some(RawIrcMsg([], Some(NOBODY), "X", []))
    ensures Wire(ParseRawIrcMsg(":! X").value) == ": X" && ParseRawIrcMsg(": X").None?
  {
    var m := RawIrcMsg([], Some(NOBODY), "X", []);
    TokenBack("!", " ", "X");
    TokenBack("X", "", "");
    assert ":! X"[1..] == "!" + (" " + "X") && "X" == "X" + ("" + "");
    EmptyHostmasks("!");
    assert RenderPrefix(m.prefix) == ": ";
    assert RenderRawIrcMsg(m) == ": X" + "\r\n";
    ParsePrintParse(":! X");
  }

  /** A message with one tag, as text: whatever its value is, the parser gives it unescaped. */
  lemma TaggedCommand(key: string, val: string, cmd: string)
    requires Free({'=', ';', ' '}, key) && Free({';', ' '}, val) && IsToken(cmd) && cmd[0] != ':'
    ensures ParseRawIrcMsg("@" + key + "=" + val + " " + cmd)
         == Some(RawIrcMsg([TagEntry(key, Unescape(val))], None, cmd, []))
  {
    var tag := key + ("=" + val);
    var t := "@" + (tag + (" " + cmd));
    assert "@" + key + "=" + val + " " + cmd == t;
    assert t[1..] == key + ("=" + val + " " + cmd);
    SpanUnique({'=', ';', ' '}, key, "=" + val + " " + cmd);
    assert ("=" + val + " " + cmd)[1..] == val + (" " + cmd);
    SpanUnique({';', ' '}, val, " " + cmd);
    SkipSpacesUnique(" ", cmd);
    TokenThenBlank(cmd, "");
    assert cmd + "" == cmd;
  }

  /** In particular `@label=a\sb PING` has the value `a b`. */
  lemma TaggedExample()
    ensures ParseRawIrcMsg("@" + "label" + "=" + "a\\sb" + " " + "PING")
         == Some(RawIrcMsg([TagEntry("label", "a b")], None, "PING", []))
  {
    ExampleValue();
    TaggedCommand("label", "a\\sb", "PING");
  }

  lemma ExampleValue()
    ensures Unescape("a\\sb") == "a b"
  {
    assert "a\\sb"[1..] == "\\sb" && "\\sb"[2..] == "b" && "b"[1..] == "";
    assert Unescape("b") == "b";
    assert Unescape("\\sb") == " b";
  }

  // ----- What the printer writes -----

  /** The last parameter has a colon exactly when it would be misread without one. */
  lemma LastParameter(x: string)
    ensures BuildParams([x]) == if x != "" && x[0] != ':' && Free({' '}, x) then " " + x else " :" + x
  {
    assert [x][1..] == [] && " " + x + "" == " " + x;
  }

  /** A tag has an equals sign exactly when it has a value. */
  lemma TagWritten(key: string, val: string, cmd: string)
    ensures Wire(RawIrcMsg([TagEntry(key, val)], None, cmd, []))
         == "@" + key + (if val == "" then "" else "=" + Escape(val)) + " " + cmd
  {
    var m := RawIrcMsg([TagEntry(key, val)], None, cmd, []);
    assert RenderRawIrcMsg(m) == Wire(m) + "\r\n";
    Joined(key, "=", Escape(val));
  }

  /** Empty parameters before the last are replaced by stars. */
  function Starred(ps: seq<string>): seq<string> {
    seq(|ps|, i requires 0 <= i < |ps| => if i < |ps| - 1 && ps[i] == "" then "*" else ps[i])
  }

  lemma {:induction false} StarredPrints(ps: seq<string>)
    ensures BuildParams(ps) == BuildParams(Starred(ps))
  {
    if |ps| > 1 {
      StarredPrints(ps[1..]);
      assert Starred(ps)[1..] == Starred(ps[1..]);
    } else {
      assert Starred(ps) == ps;
    }
  }

  /** A message with empty parameters before the last arrives with stars in their places, when that is well formed. */
  lemma EmptyParameters(m: RawIrcMsg, arrived: seq<string>)
    requires |arrived| == |m.params| && WellFormed(m.(params := arrived))
    requires forall i | 0 <= i < |arrived| ::
               arrived[i] == if i < |arrived| - 1 && m.params[i] == "" then "*" else m.params[i]
    ensures ParseRawIrcMsg(Wire(m)) == Some(m.(params := arrived))
  {
    assert arrived == Starred(m.params);
    StarredPrints(m.params);
    assert RenderRawIrcMsg(m) == RenderRawIrcMsg(m.(params := arrived));
    RoundTrip(m.(params := arrived));
  }
}
