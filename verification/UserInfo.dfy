/** User hostmasks `nick!user@host` (lib/src/Irc/UserInfo.hs). Nicknames are kept as written; Identifier.dfy folds
    their case. */
module UserInfos {
  import opened Text

  /** `name` and `host` are empty when missing. */
  datatype UserInfo = UserInfo(nick: string, name: string, host: string)

  const NOBODY := UserInfo("", "", "")

  function RenderUserInfo(u: UserInfo): string {
    u.nick
    + (if u.name == "" then "" else "!" + u.name)
    + (if u.host == "" then "" else "@" + u.host)
  }

  function DropOne(s: string): string {
    if s == [] then [] else s[1..]
  }

  function ParseUserInfo(x: string): (u: UserInfo)
    ensures Splittable(u)
  {
    var (nickuser, host) := Span({'@'}, x);
    var (nick, user) := Span({'!'}, nickuser);
    assert forall i | 0 <= i < |user| :: user[i] == nickuser[|nick| + i];
    assert forall i | 0 <= i < |nick| :: nick[i] == nickuser[i];
    UserInfo(nick, DropOne(user), DropOne(host))
  }

  /** The delimiters do not occur where the splitter would look for them. */
  predicate Splittable(u: UserInfo) {
    Free({'!', '@'}, u.nick) && Free({'@'}, u.name)
  }

  /** Printing and splitting are inverse exactly on the hostmasks whose delimiters are unambiguous. */
  lemma UserInfoRoundTrip(u: UserInfo)
    ensures ParseUserInfo(RenderUserInfo(u)) == u <==> Splittable(u)
  {
    if Splittable(u) {
      var user := if u.name == "" then "" else "!" + u.name;
      var host := if u.host == "" then "" else "@" + u.host;
      assert RenderUserInfo(u) == (u.nick + user) + host;
      SpanUnique({'@'}, u.nick + user, host);
      SpanUnique({'!'}, u.nick, user);
    }
  }

  /** Hostmasks as text: the nickname goes up to the first delimiter, the user name from a `!` to the first `@`, and the
      host is what follows that. */
  lemma HostmaskText(nick: string, user: Option<string>, host: Option<string>)
    requires Free({'!', '@'}, nick) && (user.Some? ==> Free({'@'}, user.value))
    ensures var u, h := if user.None? then "" else "!" + user.value, if host.None? then "" else "@" + host.value;
            var x := nick + u + h;
            && ParseUserInfo(x)
               == UserInfo(nick, if user.None? then "" else user.value, if host.None? then "" else host.value)
            && (user != Some("") && host != Some("") ==> RenderUserInfo(ParseUserInfo(x)) == x)
  {
    var u, h := if user.None? then "" else "!" + user.value, if host.None? then "" else "@" + host.value;
    SpanUnique({'@'}, nick + u, h);
    SpanUnique({'!'}, nick, u);
  }

  /** The tokens that carry no information at all: the only ones the splitter maps to three empty fields. */
  lemma EmptyHostmasks(x: string)
    ensures ParseUserInfo(x) == NOBODY <==> x in {"", "!", "@", "!@"}
  {
    var (nickuser, host) := Span({'@'}, x);
    var (nick, user) := Span({'!'}, nickuser);
    assert x == nick + user + host;
    if ParseUserInfo(x) == NOBODY {
      assert nick == "";
      assert user == "" || user == "!";
      assert host == "" || host == "@";
      assert user == "" ==> x == host;
      assert host == "" ==> x == user;
      assert "!" + "@" == "!@";
    } else if x in {"", "!", "@", "!@"} {
      SplitExplicit(if '!' in x then "!" else "", if '@' in x then "@" else "", x);
    }
  }

  lemma SplitExplicit(user: string, host: string, x: string)
    requires user in {"", "!"} && host in {"", "@"} && x == user + host
    ensures ParseUserInfo(x) == NOBODY
  {
    SpanUnique({'@'}, user, host);
    SpanUnique({'!'}, "", user);
    assert "" + user == user;
  }
}
