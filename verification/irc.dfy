/** The IRC command front end: how `IRCBot.privmsg` splits a channel line into
    a command and its options, and how `CommandHandler` authorises the command
    against the permission store and runs its handler. A line is processed as
    a pure function from the store and the line to the new store and the trace
    of effects it caused. */
module Irc {
  import opened Py
  import Permissions

  /** What a handled line does to the outside world. */
  datatype Effect =
    | Say(text: Text)                                 // IRCBot.say on the bot's channel
    | Msg(target: string, text: Text)                 // IRCBot.msg to one user
    | Enqueue(command: string, options: seq<string>)  // {'command': .., 'options': ..} put on the wiki queue

  /** The replies the bot sends, by kind; `Render` gives the exact text. */
  datatype Text =
    | UsageText(command: Command)
    | CreatedUser(user: string)
    | AddedHostmask(hostmask: string, user: string)
    | AddedGroup(user: string, group: string)
    | RemovedHostmask(hostmask: string, user: string)
    | RemovedUser(user: string)
    | WikiHelpList
    | PermsHelpList
    | Denied
    | PublicOnly

  /** The store after the line, the effects in order, and the exception that
      escaped the handler, if any (Twisted logs it and carries on). */
  datatype Reaction = Reaction(store: Permissions.Store, effects: seq<Effect>, raised: Option<PyError>)

  /** The keys of `CommandHandler.handlers`. */
  datatype Command =
    | AddHostmask | AddUser | AddUserGroup | Block | BlockDelete | Delete
    | WikiHelp | PermsHelp | RemoveHostmask | RemoveGroup | RemoveUser

  function Name(c: Command): string {
    match c
    case AddHostmask => "addhostmask"
    case AddUser => "adduser"
    case AddUserGroup => "addusergroup"
    case Block => "block"
    case BlockDelete => "blockdelete"
    case Delete => "delete"
    case WikiHelp => "wikihelp"
    case PermsHelp => "permshelp"
    case RemoveHostmask => "removehostmask"
    case RemoveGroup => "removegroup"
    case RemoveUser => "removeuser"
  }

  /** `command in self.handlers`, and the handler it selects. */
  function CommandNamed(name: string): (r: Option<Command>)
    ensures r.Some? ==> Name(r.value) == name
    ensures r.None? ==> forall c: Command :: Name(c) != name
  {
    if name == "addhostmask" then Some(AddHostmask)
    else if name == "adduser" then Some(AddUser)
    else if name == "addusergroup" then Some(AddUserGroup)
    else if name == "block" then Some(Block)
    else if name == "blockdelete" then Some(BlockDelete)
    else if name == "delete" then Some(Delete)
    else if name == "wikihelp" then Some(WikiHelp)
    else if name == "permshelp" then Some(PermsHelp)
    else if name == "removehostmask" then Some(RemoveHostmask)
    else if name == "removegroup" then Some(RemoveGroup)
    else if name == "removeuser" then Some(RemoveUser)
    else None
  }

  /** The argument count a handler checks; the two help handlers check none. */
  function Arity(c: Command): Option<nat> {
    match c
    case AddHostmask => Some(2)
    case AddUser => Some(3)
    case AddUserGroup => Some(2)
    case Block => Some(1)
    case BlockDelete => Some(1)
    case Delete => Some(1)
    case RemoveHostmask => Some(2)
    case RemoveGroup => Some(1)
    case RemoveUser => Some(1)
    case WikiHelp => None
    case PermsHelp => None
  }

  /** The reply a handler gives when the argument count is wrong. */
  function Usage(c: Command): string {
    match c
    case AddHostmask => "Incorrect usage, use .addhostmask username hostmask"
    case AddUser => "Incorrect usage, use .adduser username hostmask group"
    case AddUserGroup => "Incorrect usage, use .addusergroup username group"
    case Block => "Incorrect usage, use .block username"
    case BlockDelete => "Incorrect usage, use .blockdelete username"
    case Delete => "Incorrect usage, use .delete pagename"
    case RemoveHostmask => "Incorrect usage, use .removehostmask username hostmask"
    case RemoveGroup => "Incorrect usage, use .removegroup groupName"
    case RemoveUser => "Incorrect usage, use .removeuser username"
    case WikiHelp => ""
    case PermsHelp => ""
  }

  /** The text of a reply, as the handlers format it. */
  function Render(t: Text): string {
    match t
    case UsageText(c) => Usage(c)
    case CreatedUser(user) => "Created user " + user
    case AddedHostmask(hostmask, user) => "Added hostmask " + hostmask + " to user " + user
    case AddedGroup(user, group) => "Added user " + user + " to group " + group
    case RemovedHostmask(hostmask, user) => "Removed hostmask " + hostmask + " from user " + user
    case RemovedUser(user) => "Removed user " + user
    case WikiHelpList => "Commands avaliable: .block username, .blockdelete username, .delete pagename, .permshelp"
    case PermsHelpList => "Commands availible: .adduser username hostname group, "
      + ".addhostmask username hostmask, .removeuser username, .removehostmask username hostmask"
    case Denied => "Incorrect permission group for this command."
    case PublicOnly => "Commands in the public channel only please"
  }

  // ---------------------------------------------------------------------------
  // Authorisation

  /** `commandPermissions`: group name to the command names it may run, with
      "*" standing for every command. */
  type Policy = map<string, seq<string>>

  const AdminPolicy: Policy := map["admin" := ["*"]]

  /** One group's grant: `commandPermissions.get(group, [])` names the command
      or holds the wildcard. */
  predicate Grants(policy: Policy, group: string, command: string) {
    var allowed := if group in policy then policy[group] else [];
    command in allowed || "*" in allowed
  }

  /** The loop over the user's groups in `isAuthorised`. */
  function AnyGroupGrants(policy: Policy, groups: seq<string>, command: string): (b: bool)
    ensures b <==> exists i :: 0 <= i < |groups| && Grants(policy, groups[i], command)
  {
    if |groups| == 0 then false
    else if Grants(policy, groups[0], command) then true
    else
      var rest := AnyGroupGrants(policy, groups[1..], command);
      assert forall i :: 1 <= i < |groups| ==> groups[i] == groups[1..][i - 1];
      rest
  }

  /** `isAuthorised`: the hostmask-checked lookup must return a non-empty list
      holding a group that grants the command or the wildcard. */
  function IsAuthorised(policy: Policy, store: Permissions.Store, command: string,
                        username: string, hostmask: string): (b: bool)
    ensures b <==>
      && username in store
      && hostmask in store[username].hostmasks
      && exists i :: 0 <= i < |store[username].groups| && Grants(policy, store[username].groups[i], command)
  {
    match Permissions.GetUserPermissions(store, username, hostmask)
    case None => false
    case Some(groups) => |groups| > 0 && AnyGroupGrants(policy, groups, command)
  }

  /** Under the shipped policy, being authorised means exactly: the exact user
      name is known, the hostmask is trusted, and the groups include admin. */
  lemma AdminPolicyMeansAdminGroup(store: Permissions.Store, command: string, username: string, hostmask: string)
    ensures IsAuthorised(AdminPolicy, store, command, username, hostmask) <==>
      && Permissions.GetUserPermissions(store, username, hostmask).Some?
      && "admin" in Permissions.GetUserPermissions(store, username, hostmask).value
  {
    assert Grants(AdminPolicy, "admin", command);
    if username in store && "admin" in store[username].groups {
      var i := IndexOf(store[username].groups, "admin");
      assert Grants(AdminPolicy, store[username].groups[i], command);
    }
  }

  // ---------------------------------------------------------------------------
  // Handlers

  function Reply(store: Permissions.Store, text: Text): Reaction {
    Reaction(store, [Say(text)], None)
  }

  function Fail(store: Permissions.Store, e: PyError): Reaction {
    Reaction(store, [], Some(e))
  }

  /** `addUserHostmask`: two arguments, user then hostmask. */
  function AddHostmaskCommand(store: Permissions.Store, args: seq<string>): (r: Reaction)
    ensures |args| != 2 ==> r == Reply(store, UsageText(AddHostmask))
    ensures |args| == 2 && Permissions.AddUserHostmask(store, args[0], args[1]).Raised? ==>
      r == Fail(store, KeyError)
    ensures |args| == 2 && Permissions.AddUserHostmask(store, args[0], args[1]).Ok? ==>
      && r.store == Permissions.AddUserHostmask(store, args[0], args[1]).value
      && r.effects == [Say(AddedHostmask(args[1], args[0]))]
      && r.raised.None?
  {
    if |args| == 2 then
      match Permissions.AddUserHostmask(store, args[0], args[1])
      case Raised(e) => Fail(store, e)
      case Ok(s) => Reply(s, AddedHostmask(args[1], args[0]))
    else Reply(store, UsageText(AddHostmask))
  }

  /** `addUser`: three arguments, user, hostmask and group. */
  function AddUserCommand(store: Permissions.Store, args: seq<string>): (r: Reaction)
    ensures |args| != 3 ==> r == Reply(store, UsageText(AddUser))
    ensures |args| == 3 ==>
      && r.store == Permissions.AddUser(store, args[0], args[1], args[2])
      && r.effects == [Say(CreatedUser(args[0]))]
      && r.raised.None?
  {
    if |args| == 3 then
      Reply(Permissions.AddUser(store, args[0], args[1], args[2]), CreatedUser(args[0]))
    else Reply(store, UsageText(AddUser))
  }

  /** `addUserGroup`: two arguments, user then group. */
  function AddUserGroupCommand(store: Permissions.Store, args: seq<string>): (r: Reaction)
    ensures |args| != 2 ==> r == Reply(store, UsageText(AddUserGroup))
    ensures |args| == 2 && Permissions.AddUserGroup(store, args[0], args[1]).Raised? ==>
      r == Fail(store, KeyError)
    ensures |args| == 2 && Permissions.AddUserGroup(store, args[0], args[1]).Ok? ==>
      && r.store == Permissions.AddUserGroup(store, args[0], args[1]).value
      && r.effects == [Say(AddedGroup(args[0], args[1]))]
      && r.raised.None?
  {
    if |args| == 2 then
      match Permissions.AddUserGroup(store, args[0], args[1])
      case Raised(e) => Fail(store, e)
      case Ok(s) => Reply(s, AddedGroup(args[0], args[1]))
    else Reply(store, UsageText(AddUserGroup))
  }

  /** `blockUser`, `blockdeleteUser` and `deletePage`: one argument, passed on
      to the wiki side as the record's options; nothing is said. */
  function QueueCommand(c: Command, store: Permissions.Store, args: seq<string>): (r: Reaction)
    requires c in {Block, BlockDelete, Delete}
    ensures r.store == store && r.raised.None?
    ensures |args| != 1 ==> r.effects == [Say(UsageText(c))]
    ensures |args| == 1 ==> r.effects == [Enqueue(Name(c), args)]
  {
    if |args| == 1 then Reaction(store, [Enqueue(Name(c), args)], None) else Reply(store, UsageText(c))
  }

  /** `removeUserHostmask`: two arguments, user then hostmask; the reply names
      them the other way round. */
  function RemoveHostmaskCommand(store: Permissions.Store, args: seq<string>): (r: Reaction)
    ensures |args| != 2 ==> r == Reply(store, UsageText(RemoveHostmask))
    ensures |args| == 2 && Permissions.RemoveUserHostmask(store, args[0], args[1]).Raised? ==>
      r == Fail(store, ValueError)
    ensures |args| == 2 && Permissions.RemoveUserHostmask(store, args[0], args[1]).Ok? ==>
      && r.store == Permissions.RemoveUserHostmask(store, args[0], args[1]).value.store
      && r.effects == [Say(RemovedHostmask(args[0], args[1]))]
      && r.raised.None?
  {
    if |args| == 2 then
      match Permissions.RemoveUserHostmask(store, args[0], args[1])
      case Raised(e) => Fail(store, e)
      case Ok(rm) => Reply(rm.store, RemovedHostmask(args[0], args[1]))
    else Reply(store, UsageText(RemoveHostmask))
  }

  /** `removePermissionGroup`: `remove_group` takes a user and a group, but the
      handler passes its one argument alone, so the call raises TypeError
      before anything is changed or said. */
  function RemoveGroupCommand(store: Permissions.Store, args: seq<string>): (r: Reaction)
    ensures |args| != 1 ==> r == Reply(store, UsageText(RemoveGroup))
    ensures |args| == 1 ==> r == Fail(store, TypeError)
  {
    if |args| == 1 then Fail(store, TypeError) else Reply(store, UsageText(RemoveGroup))
  }

  /** `removeUser`: one argument; the reply claims the removal whether or not
      the user existed. */
  function RemoveUserCommand(store: Permissions.Store, args: seq<string>): (r: Reaction)
    ensures |args| != 1 ==> r == Reply(store, UsageText(RemoveUser))
    ensures |args| == 1 ==>
      && r.store == Permissions.RemoveUser(store, args[0]).store
      && r.effects == [Say(RemovedUser(args[0]))]
      && r.raised.None?
  {
    if |args| == 1 then Reply(Permissions.RemoveUser(store, args[0]).store, RemovedUser(args[0]))
    else Reply(store, UsageText(RemoveUser))
  }

  /** `self.handlers[command](*args)`: each handler checks its argument count,
      then touches the store or the wiki queue and reports on the channel. */
  function Dispatch(c: Command, store: Permissions.Store, args: seq<string>): (r: Reaction)
    ensures Arity(c).Some? && |args| != Arity(c).value ==> r == Reply(store, UsageText(c))
    ensures (c == Block || c == BlockDelete || c == Delete) && |args| == 1 ==>
      r == Reaction(store, [Enqueue(Name(c), args)], None)
    ensures c == RemoveGroup && |args| == 1 ==> r == Fail(store, TypeError)
    ensures r.raised.Some? ==> r.store == store && r.effects == []
    ensures r.raised.None? ==> |r.effects| == 1
    ensures c !in {AddHostmask, AddUser, AddUserGroup, RemoveHostmask, RemoveUser} ==> r.store == store
    ensures c !in {Block, BlockDelete, Delete} ==> forall i :: 0 <= i < |r.effects| ==> !r.effects[i].Enqueue?
    ensures c == WikiHelp ==> r == Reply(store, WikiHelpList)
    ensures c == PermsHelp ==> r == Reply(store, PermsHelpList)
    ensures c == AddHostmask ==> r == AddHostmaskCommand(store, args)
    ensures c == AddUser ==> r == AddUserCommand(store, args)
    ensures c == AddUserGroup ==> r == AddUserGroupCommand(store, args)
    ensures c == RemoveHostmask ==> r == RemoveHostmaskCommand(store, args)
    ensures c == RemoveGroup ==> r == RemoveGroupCommand(store, args)
    ensures c == RemoveUser ==> r == RemoveUserCommand(store, args)
  {
    match c
    case AddHostmask => AddHostmaskCommand(store, args)
    case AddUser => AddUserCommand(store, args)
    case AddUserGroup => AddUserGroupCommand(store, args)
    case Block => QueueCommand(c, store, args)
    case BlockDelete => QueueCommand(c, store, args)
    case Delete => QueueCommand(c, store, args)
    case WikiHelp => Reply(store, WikiHelpList)
    case PermsHelp => Reply(store, PermsHelpList)
    case RemoveHostmask => RemoveHostmaskCommand(store, args)
    case RemoveGroup => RemoveGroupCommand(store, args)
    case RemoveUser => RemoveUserCommand(store, args)
  }

  /** `handleCommand`: lower-case the name, split the options on single
      spaces, ignore unknown names, refuse unauthorised senders with one fixed
      message, and otherwise run the handler. */
  function HandleCommand(policy: Policy, store: Permissions.Store, username: string, hostmask: string,
                         command: string, options: string): (r: Reaction)
    ensures CommandNamed(Lower(command)).None? ==> r == Reaction(store, [], None)
    ensures CommandNamed(Lower(command)).Some? && !IsAuthorised(policy, store, Lower(command), username, hostmask) ==>
      r == Reply(store, Denied)
    ensures CommandNamed(Lower(command)).Some? && IsAuthorised(policy, store, Lower(command), username, hostmask) ==>
      r == Dispatch(CommandNamed(Lower(command)).value, store, Split(options, ' '))
  {
    var name := Lower(command);
    var args := Split(options, ' ');
    match CommandNamed(name)
    case None => Reaction(store, [], None)
    case Some(c) =>
      if IsAuthorised(policy, store, name, username, hostmask) then Dispatch(c, store, args)
      else Reply(store, Denied)
  }

  // ---------------------------------------------------------------------------
  // Line parsing

  /** The command part of a line `privmsg` accepts: a line opening with '.'
      gives the text before the first space with the dots around it stripped,
      and the text after that space, or "" when there is none. */
  function ParseLine(msg: string): (r: Option<(string, string)>)
    ensures r.Some? <==> |msg| > 0 && msg[0] == '.'
    ensures r.Some? && ' ' in msg ==>
      r.value == (Strip(msg[..IndexOf(msg, ' ')], '.'), msg[IndexOf(msg, ' ') + 1..])
    ensures r.Some? && ' ' !in msg ==> r.value == (Strip(msg, '.'), "")
    ensures r.Some? ==> ' ' !in r.value.0 && (|r.value.0| > 0 ==> r.value.0[0] != '.' && r.value.0[|r.value.0| - 1] != '.')
  {
    if |msg| > 0 && msg[0] == '.' then
      var parts := SplitOnce(msg, ' ');
      var head := parts[0];
      var name := Strip(head, '.');
      Some((name, if |parts| > 1 then parts[1] else ""))
    else None
  }

  /** `privmsg(user, channel, msg)`: the sender prefix `nick!ident@host` gives
      the user name (before the first '!') and the hostmask (after the first
      '@', whose absence raises IndexError); a private message to the bot
      gets one refusal; a channel line is handled when it is a command. */
  function Privmsg(policy: Policy, store: Permissions.Store, botNick: string,
                   user: string, channel: string, msg: string): (r: Reaction)
    ensures '@' !in user ==> r == Fail(store, IndexError)
    ensures '@' in user && channel == botNick ==>
      r == Reaction(store, [Msg(SplitOnce(user, '!')[0], PublicOnly)], None)
    ensures '@' in user && channel != botNick && ParseLine(msg).None? ==> r == Reaction(store, [], None)
    ensures '@' in user && channel != botNick && ParseLine(msg).Some? ==>
      r == HandleCommand(policy, store, SplitOnce(user, '!')[0], user[IndexOf(user, '@') + 1..],
                         ParseLine(msg).value.0, ParseLine(msg).value.1)
  {
    var userName := SplitOnce(user, '!')[0];
    var atParts := SplitOnce(user, '@');
    if |atParts| < 2 then Fail(store, IndexError)
    else
      var userHostmask := atParts[1];
      if channel == botNick then Reaction(store, [Msg(userName, PublicOnly)], None)
      else
        match ParseLine(msg)
        case None => Reaction(store, [], None)
        case Some((command, options)) => HandleCommand(policy, store, userName, userHostmask, command, options)
  }

  // ---------------------------------------------------------------------------
  // Properties of whole lines

  /** A line sent to the bot privately never reaches the command handler: the
      store is untouched and nothing is said or queued. */
  lemma PrivateLinesNeverDispatch(policy: Policy, store: Permissions.Store, botNick: string, user: string, msg: string)
    ensures var r := Privmsg(policy, store, botNick, user, botNick, msg);
      && r.store == store
      && forall i :: 0 <= i < |r.effects| ==> r.effects[i].Msg?
  {
  }

  /** Only an authorised sender can change the store or queue wiki work: an
      unknown command is silent, and an unauthorised one gets exactly the
      denial, whatever the command. */
  lemma UnauthorisedLinesChangeNothing(policy: Policy, store: Permissions.Store, username: string, hostmask: string,
                                       command: string, options: string)
    requires !IsAuthorised(policy, store, Lower(command), username, hostmask)
    ensures var r := HandleCommand(policy, store, username, hostmask, command, options);
      && r.store == store
      && r.raised.None?
      && r.effects == (if CommandNamed(Lower(command)).Some? then [Say(Denied)] else [])
  {
  }

  /** Empty options split to one empty argument, so a one-argument command
      given no argument passes its count check: `.block` queues a block of
      the user "". */
  lemma EmptyOptionsPassSingleArity(policy: Policy, store: Permissions.Store, username: string, hostmask: string)
    requires IsAuthorised(policy, store, "block", username, hostmask)
    ensures HandleCommand(policy, store, username, hostmask, "block", "") ==
      Reaction(store, [Enqueue("block", [""])], None)
  {
    assert Split("", ' ') == [""];
  }

  /** An authorised single-word argument is queued unchanged: the queued
      options are exactly the words of the line after the command. */
  lemma QueuedOptionsAreTheWords(policy: Policy, store: Permissions.Store, username: string, hostmask: string,
                                 command: string, word: string)
    requires CommandNamed(Lower(command)) in {Some(Block), Some(BlockDelete), Some(Delete)}
    requires IsAuthorised(policy, store, Lower(command), username, hostmask)
    requires ' ' !in word
    ensures HandleCommand(policy, store, username, hostmask, command, word) ==
      Reaction(store, [Enqueue(Lower(command), [word])], None)
  {
    SplitJoin([word], ' ');
  }

  lemma DispatchKeepsKeysLower(c: Command, store: Permissions.Store, args: seq<string>)
    requires Permissions.KeysLower(store)
    ensures Permissions.KeysLower(Dispatch(c, store, args).store)
  {
    if |args| >= 1 {
      Permissions.MutationsKeepKeysLower(store, args[0], if |args| >= 2 then args[1] else "",
                                         if |args| >= 3 then args[2] else "");
    }
  }

  lemma HandleCommandKeepsKeysLower(policy: Policy, store: Permissions.Store, username: string, hostmask: string,
                                    command: string, options: string)
    requires Permissions.KeysLower(store)
    ensures Permissions.KeysLower(HandleCommand(policy, store, username, hostmask, command, options).store)
  {
    var name := Lower(command);
    if CommandNamed(name).Some? {
      DispatchKeepsKeysLower(CommandNamed(name).value, store, Split(options, ' '));
    }
  }

  /** Whatever line arrives, the permission store keeps all keys lower-case. */
  lemma LinesKeepKeysLower(policy: Policy, store: Permissions.Store, botNick: string,
                           user: string, channel: string, msg: string)
    requires Permissions.KeysLower(store)
    ensures Permissions.KeysLower(Privmsg(policy, store, botNick, user, channel, msg).store)
  {
    if '@' in user && channel != botNick && ParseLine(msg).Some? {
      HandleCommandKeepsKeysLower(policy, store, SplitOnce(user, '!')[0], user[IndexOf(user, '@') + 1..],
                                  ParseLine(msg).value.0, ParseLine(msg).value.1);
    }
  }

  /** Because the lookup uses the nick exactly as sent, a nick holding an
      upper-case letter is never authorised while the keys are lower-case. */
  lemma MixedCaseNickNeverAuthorised(policy: Policy, store: Permissions.Store, command: string,
                                     username: string, hostmask: string)
    requires Permissions.KeysLower(store)
    requires !IsLower(username)
    ensures !IsAuthorised(policy, store, command, username, hostmask)
  {
  }

  /** The sender prefix `nick!ident@host` yields the nick and the host. */
  lemma SenderParts(nick: string, ident: string, host: string)
    requires '!' !in nick && '@' !in nick && '@' !in ident
    ensures var user := nick + "!" + ident + "@" + host;
      && '@' in user
      && SplitOnce(user, '!')[0] == nick
      && user[IndexOf(user, '@') + 1..] == host
  {
    var user := nick + "!" + ident + "@" + host;
    assert user == nick + ['!'] + (ident + "@" + host);
    IndexOfAfterPrefix(nick, '!', ident + "@" + host);
    assert user[..|nick|] == nick;
    assert user == (nick + "!" + ident) + ['@'] + host;
    assert '@' !in nick + "!" + ident;
    IndexOfAfterPrefix(nick + "!" + ident, '@', host);
    assert user[|nick + "!" + ident| + 1..] == host;
  }

  /** The line `.name rest` parses to the command `name` and the options
      `rest`. */
  lemma CommandLineParts(name: string, rest: string)
    requires |name| > 0 && name[0] != '.' && name[|name| - 1] != '.' && ' ' !in name
    ensures ParseLine("." + name + " " + rest) == Some((name, rest))
  {
    var head := "." + name;
    var msg := head + [' '] + rest;
    assert msg == "." + name + " " + rest;
    assert ' ' !in head;
    IndexOfAfterPrefix(head, ' ', rest);
    assert msg[..|head|] == head && msg[|head| + 1..] == rest;
    assert head[1..] == name;
    assert Leading(head[1..], '.') == 0;
    assert Leading(head, '.') == 1;
    assert StripRight(name, '.') == name;
  }

  /** A channel line `.name rest` from `nick!ident@host` reaches the handler
      as command `name` with options `rest`, from user `nick` at hostmask
      `host`. */
  lemma ChannelCommandReachesHandler(policy: Policy, store: Permissions.Store, botNick: string, channel: string,
                                     nick: string, ident: string, host: string, name: string, rest: string)
    requires '!' !in nick && '@' !in nick && '@' !in ident
    requires channel != botNick
    requires |name| > 0 && name[0] != '.' && name[|name| - 1] != '.' && ' ' !in name
    ensures Privmsg(policy, store, botNick, nick + "!" + ident + "@" + host, channel, "." + name + " " + rest)
            == HandleCommand(policy, store, nick, host, name, rest)
  {
    SenderParts(nick, ident, host);
    CommandLineParts(name, rest);
  }

  /** Worked lines for an admin registered as alice from example.com. */
  const ScenarioStore := map["alice" := Permissions.Entry(["admin"], ["example.com"])]

  /** `.adduser alice example.com Admin` from an empty store builds the
      scenario's store. */
  lemma AddUserBuildsScenarioStore()
    ensures Permissions.AddUser(map[], "alice", "example.com", "Admin") == ScenarioStore
  {
    assert Lower("alice") == "alice";
    assert Lower("Admin") == "admin";
  }

  /** The trusted admin's `.delete SpamPage` queues exactly that delete. */
  lemma AdminDeleteIsQueued()
    ensures HandleCommand(AdminPolicy, ScenarioStore, "alice", "example.com", "delete", "SpamPage")
            == Reaction(ScenarioStore, [Enqueue("delete", ["SpamPage"])], None)
  {
    AdminPolicyMeansAdminGroup(ScenarioStore, "delete", "alice", "example.com");
    assert Lower("delete") == "delete";
    SplitJoin(["SpamPage"], ' ');
  }

  /** The same nick from a hostmask it does not hold is refused. */
  lemma OtherHostmaskIsDenied()
    ensures HandleCommand(AdminPolicy, ScenarioStore, "alice", "evil.com", "delete", "SpamPage")
            == Reply(ScenarioStore, Denied)
  {
    assert Lower("delete") == "delete";
  }

  /** `.block` with two words gets the usage reply. */
  lemma TwoWordBlockGetsUsage()
    ensures HandleCommand(AdminPolicy, ScenarioStore, "alice", "example.com", "block", "a b")
            == Reply(ScenarioStore, UsageText(Block))
  {
    AdminPolicyMeansAdminGroup(ScenarioStore, "block", "alice", "example.com");
    assert Lower("block") == "block";
    SplitJoin(["a", "b"], ' ');
    assert Join(["a", "b"], ' ') == "a b";
  }
}
