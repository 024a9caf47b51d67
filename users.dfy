/** The user side of the entity layer: the extended identity record (`UserInfo`)
    and the connected-user record (`User`), with the properties computed from
    their stored attributes. */
module Users {
  import opened Wrappers
  import opened Strings
  import SocketFields

  /** Identity filled in by the USER command; every part starts out absent. */
  datatype UserInfo = UserInfo(user: Option<string>, host: Option<string>,
                               server: Option<string>, name: Option<string>)

  const BlankUserInfo := UserInfo(None, None, None, None)

  /** Truth value of a `UserInfo`: all of user, host and real name are present. */
  predicate IsComplete(info: UserInfo) {
    forall part :: part in [info.user, info.host, info.name] ==> part.Some?
  }

  /** Completeness reads the three parts one by one and never looks at `server`. */
  lemma CompleteIffIdentified(info: UserInfo, server: Option<string>)
    ensures IsComplete(info) <==> info.user.Some? && info.host.Some? && info.name.Some?
    ensures IsComplete(info.(server := server)) == IsComplete(info)
    ensures !IsComplete(BlankUserInfo)
  {
    assert info.user in [info.user, info.host, info.name];
    assert info.host in [info.user, info.host, info.name];
    assert info.name in [info.user, info.host, info.name];
    assert BlankUserInfo.user in [BlankUserInfo.user, BlankUserInfo.host, BlankUserInfo.name];
  }

  /** A connected client. `channels` holds the names of the joined channels;
      `signon` is the creation time in seconds. */
  datatype User = User(
    id: nat,
    sock: SocketFields.Socket,
    host: string,
    port: int,
    nick: Option<string>,
    away: Option<string>,
    modes: string,
    channels: seq<string>,
    userinfo: Option<UserInfo>,
    registered: bool,
    lastmessage: Option<int>,
    signon: int)

  /** A freshly created record: every attribute at its declared default. */
  function NewUser(id: nat, sock: SocketFields.Socket, signon: int): (u: User)
    ensures u.id == id && u.sock == sock && u.signon == signon
    ensures u.host == "" && u.port == 0 && u.nick.None? && u.away.None? && u.modes == ""
    ensures u.channels == [] && u.userinfo.None? && !u.registered && u.lastmessage.None?
  {
    User(id, sock, "", 0, None, None, "", [], None, false, None, signon)
  }

  /** `oper`: the mode string contains "o". */
  predicate Oper(u: User) {
    IsSubstring("o", u.modes)
  }

  /** `invisible`: the mode string contains "i". */
  predicate Invisible(u: User) {
    IsSubstring("i", u.modes)
  }

  /** `visible`: not invisible. */
  predicate Visible(u: User) {
    !Invisible(u)
  }

  /** The mode tests are exactly tests for the letters `o` and `i`, and a new
      user is neither an operator nor invisible. */
  lemma ModeLetters(u: User, id: nat, sock: SocketFields.Socket, signon: int)
    ensures Oper(u) <==> 'o' in u.modes
    ensures Invisible(u) <==> 'i' in u.modes
    ensures Visible(u) <==> 'i' !in u.modes
    ensures !Oper(NewUser(id, sock, signon)) && Visible(NewUser(id, sock, signon))
  {
    SingleLetterSubstring('o', u.modes);
    SingleLetterSubstring('i', u.modes);
    SingleLetterSubstring('o', "");
    SingleLetterSubstring('i', "");
  }

  /** `source`: (nick, user, host), or None while there is no `UserInfo`. */
  function Source(u: User): Option<(Option<string>, Option<string>, Option<string>)> {
    match u.userinfo
    case None => None
    case Some(info) => Some((u.nick, info.user, info.host))
  }

  /** An absent part of the prefix is rendered as the empty string. */
  function Text(part: Option<string>): string {
    part.GetOr("")
  }

  /** `joinprefix`: the `nick!user@host` form of a message prefix. */
  function JoinPrefix(nick: Option<string>, user: Option<string>, host: Option<string>): (r: string)
    ensures |r| == |Text(nick)| + |Text(user)| + |Text(host)| + 2
    ensures r[|Text(nick)|] == '!' && r[|Text(nick)| + 1 + |Text(user)|] == '@'
    ensures r[..|Text(nick)|] == Text(nick)
    ensures r[|Text(nick)| + 1..|Text(nick)| + 1 + |Text(user)|] == Text(user)
    ensures r[|Text(nick)| + 2 + |Text(user)|..] == Text(host)
  {
    Text(nick) + "!" + Text(user) + "@" + Text(host)
  }

  /** `prefix`: the joined source, or None while there is no `UserInfo`. */
  function Prefix(u: User): Option<string> {
    match Source(u)
    case None => None
    case Some((nick, user, host)) => Some(JoinPrefix(nick, user, host))
  }

  /** Source and prefix are both absent exactly when the `UserInfo` reference is
      absent (an incomplete `UserInfo` still yields them), and otherwise they are
      built from the nick and the user and host of that `UserInfo`. */
  lemma SourceAndPrefix(u: User)
    ensures Source(u).None? <==> u.userinfo.None?
    ensures Prefix(u).None? <==> u.userinfo.None?
    ensures u.userinfo.Some? ==>
              Source(u) == Some((u.nick, u.userinfo.value.user, u.userinfo.value.host)) &&
              Prefix(u) == Some(Text(u.nick) + "!" + Text(u.userinfo.value.user) + "@" + Text(u.userinfo.value.host))
  {
  }

  /** Reading a `nick!user@host` prefix back: the nick runs to the first `!`,
      the user from there to the next `@`, the host is the rest. */
  function ParsePrefix(p: string): (r: Option<(string, string, string)>)
    ensures r.Some? ==> p == r.value.0 + "!" + r.value.1 + "@" + r.value.2
    ensures r.Some? ==> '!' !in r.value.0 && '@' !in r.value.1
  {
    match Split(p, '!')
    case None => None
    case Some((nick, rest)) =>
      match Split(rest, '@')
      case None => None
      case Some((user, host)) => Some((nick, user, host))
  }

  /** The prefix of a user reads back as its source when the nick holds no `!`
      and the user name no `@`. */
  lemma {:induction false} PrefixParsesToSource(u: User)
    requires u.userinfo.Some?
    requires '!' !in Text(u.nick) && '@' !in Text(u.userinfo.value.user)
    ensures Prefix(u).Some?
    ensures ParsePrefix(Prefix(u).value) ==
              Some((Text(u.nick), Text(u.userinfo.value.user), Text(u.userinfo.value.host)))
  {
    var nick, user, host := Text(u.nick), Text(u.userinfo.value.user), Text(u.userinfo.value.host);
    var p := Prefix(u).value;
    assert p == nick + ['!'] + (user + ['@'] + host);
    SplitJoined(nick, '!', user + ['@'] + host);
    SplitJoined(user, '@', host);
  }

  /** The prefix of a registered user `bob` whose ident is `b` on `host.example`. */
  lemma PrefixExample(u: User)
    requires u.nick == Some("bob")
    requires u.userinfo == Some(UserInfo(Some("b"), Some("host.example"), None, Some("Bob")))
    ensures Prefix(u) == Some("bob!b@host.example")
  {
    assert Text(u.nick) == "bob";
    assert "bob" + "!" + "b" + "@" + "host.example" == "bob!b@host.example";
  }
}
