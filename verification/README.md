# WikIRC core, modelled in Dafny

WikIRC is a bot that joins an IRC channel, relays a wiki's recent changes into it, and lets
authorised channel members moderate the wiki from IRC (block a user, delete a page, revert a page).
This project models the bot's three pieces of deterministic logic as pure functions and proves
properties about them:

- **Permission store** (`permissions.dfy`, module `Permissions`). This is `AuthHandler`: a map from
  user name to an entry holding a list of groups and a list of trusted hostmasks. It has add, remove
  and lookup operations. Lists keep order and duplicates. `remove` drops only the first occurrence.
  Key lower-casing is as inconsistent as in permissions.py. `add_user`, `add_user_hostmask`,
  `remove_user` and `remove_user_hostmask` lower-case the name. `add_user_group`, `remove_group` and
  the authorisation lookup `get_user_permissions` use it verbatim.
- **Command front end** (`irc.dfy`, module `Irc`). This covers how `IRCBot.privmsg` turns a channel
  line into a command and its options, and how `CommandHandler` handles it: it authorises the
  command, checks the argument count, and runs the handler. Handling one line is a function from
  (policy, store, sender, line) to a `Reaction`. A `Reaction` holds the new store, the trace of
  effects (`Say`, `Msg`, `Enqueue`) and the exception that escaped, if any. Replies are kept as a
  small `Text` datatype, one constructor per reply the handlers format. `Render` gives each
  reply's exact text.
- **Wiki side** (`wiki.dfy`, module `Wiki`, and `timestamps.dfy`, module `Timestamps`). This covers:
  - the `makeMessage` templates, as a `Notice` per template, with `Line` giving its exact channel
    text;
  - `newTimeStamp`, which adds one second with carries and leap years;
  - the cursor update in `recentChanges`;
  - the first-occurrence deduplication in `removeAllChanges`;
  - the reasons, the returned strings and the call plans of `deletePage`, `blockUser`,
    `revertPage` and `blockAndRemovePages`.

  Calls into the wiki client library become abstract `Call` values in a returned plan. What the
  library would answer comes in as a parameter: the fetched batch, the user's contributions and
  the rollback tokens.

`py.dfy` (module `Py`) holds the Python 2 behaviour the code relies on:
- the exceptions that escape, as `Result` = `Ok | Raised`;
- ASCII `str.lower`;
- `str.split(' ')`, `str.split(sep, 1)` and `str.strip('.')`;
- `' '.join`;
- `list.remove`;
- string `<`.

The source is Python 2, so byte-string `lower` folds only ASCII letters, and
`datetime.strftime` refuses years before 1900.

### Behaviour the model keeps on purpose

In each of these cases the model keeps what the code does, even where that looks unintended.

- **Lookup is case-sensitive.** Authorisation looks up the IRC nick exactly as sent, but
  `add_user` stores the name lower-cased. A nick with an upper-case letter is therefore never
  authorised, even right after `.adduser` registered it (`Irc.MixedCaseNickNeverAuthorised`,
  `Permissions.MixedCaseNameNeverFound`).
- **Empty options pass a one-argument check.** `"".split(' ')` is `[""]`, so `.block` with no
  argument queues a block of the user `""` instead of printing the usage string.
- **`.removegroup` always fails.** With one argument it calls `remove_group` with one argument, but
  that method takes two. It raises TypeError, so nothing happens and nothing is said.
- **The `.removehostmask` reply swaps its arguments.** It reports "Removed hostmask USER from user
  HOSTMASK".
- **Removals report success regardless.** `.removeuser` says "Removed user X" even when X was not
  in the store. `remove_user_hostmask` raises ValueError for a hostmask the user does not have; it
  is not a no-op.
- **A failing record loses the whole batch.** `recentChanges` moves the cursor before building the
  messages. If one record makes `makeMessage` raise, the batch is lost rather than retried.
- **`revertPage` always claims success.** It returns "Page X reverted to previous edit" even when
  no rollback token came back and no rollback was sent.

## Model

| member | source | states |
|---|---|---|
| Py.Split | irc.py:59 | `options.split(' ')` yields at least one piece, no piece holds a space, and joining the pieces with single spaces gives back the options |
| Py.SplitJoin | irc.py:59 | splitting on spaces undoes joining for words without spaces, so the handler's argument list is exactly the words of the line |
| Py.SplitOnce | irc.py:202 | `split(' ', 1)` gives one piece exactly when there is no space, otherwise the text before and after the first space; the first piece holds no space |
| Py.Strip | irc.py:203 | `strip('.')` leaves an infix of the text that neither starts nor ends with a dot, and everything removed around it is dots |
| Py.LowerIsLower | permissions.py:17-18 | `lower()` yields a lower-case string, and it leaves a string unchanged exactly when that string is already lower-case |
| Permissions.ListRemove | permissions.py:64 | `list.remove` raises ValueError exactly when the element is absent; otherwise it removes only the first occurrence: one element fewer, the multiset loses exactly that element |
| Permissions.AddUser | permissions.py:16-23 | creates or overwrites the lower-cased key with groups `[lower(group)]` and hostmasks `[hostmask]` (verbatim); every other entry is unchanged |
| Permissions.AddUserGroup | permissions.py:25-27 | KeyError exactly when the exact (not lower-cased) name is absent; otherwise appends one group at the end, hostmasks and all other users unchanged |
| Permissions.AddUserHostmask | permissions.py:29-32 | KeyError exactly when the lower-cased name is absent; otherwise appends one hostmask at the end, groups and all other users unchanged |
| Permissions.GetGroupList | permissions.py:34-38 | raises NameError exactly when some user holds a group (the comprehension's filter names an undefined global); otherwise the list is empty |
| Permissions.GroupListRaisesOnceAGroupExists | permissions.py:16-23 | a fresh store lists no groups, and once `add_user` has run the group listing raises NameError |
| Permissions.GetUserPermissions | permissions.py:40-45 | fails closed: returns the groups exactly when the name is an exact key and the hostmask is in that user's list, and None otherwise |
| Permissions.RemoveGroup | permissions.py:47-51 | with an exact key holding the group, removes only its first occurrence (length drops by one); otherwise the store is unchanged |
| Permissions.RemoveUser | permissions.py:53-59 | deletes the lower-cased key; returns False exactly when the key was absent, and every other entry is kept |
| Permissions.RemoveUserHostmask | permissions.py:61-67 | unknown lower-cased user: returns False, store unchanged; known user without that hostmask: ValueError; otherwise its first occurrence is removed and nothing else changes |
| Permissions.AddThenRemoveUser | permissions.py:40-45 | after `add_user(u, h, g)` the lookup of `lower(u)` with `h` gives exactly `[lower(g)]`; after a following `remove_user(u)` every lookup of `lower(u)` gives None |
| Permissions.MutationsKeepKeysLower | permissions.py:16-67 | every store mutation keeps all keys lower-case |
| Permissions.MixedCaseNameNeverFound | permissions.py:40-45 | with lower-case keys, a name holding an upper-case letter is never found, even right after `add_user` of that name, and `add_user_group` on it raises KeyError |
| Irc.CommandNamed | irc.py:41-52 | a name selects a handler exactly when it is one of the eleven handler names |
| Irc.AnyGroupGrants | irc.py:74-78 | the loop over the groups succeeds exactly when some group's permission list holds the command or `*` |
| Irc.IsAuthorised | irc.py:68-79 | authorised exactly when the name is an exact key, the hostmask is trusted, and some group grants the command or the wildcard |
| Irc.AdminPolicyMeansAdminGroup | irc.py:54 | under `{'admin': ['*']}`, authorised exactly when the hostmask-checked lookup succeeds and its groups include `admin` |
| Irc.AddHostmaskCommand | irc.py:81-86 | a count other than two gives the usage line; an unknown lower-cased user raises KeyError with the store unchanged; otherwise the hostmask is appended and the reply names hostmask then user |
| Irc.AddUserCommand | irc.py:88-93 | a count other than three gives the usage line; otherwise the store becomes `add_user` of the three arguments and the reply names the user |
| Irc.AddUserGroupCommand | irc.py:95-100 | a count other than two gives the usage line; a user that is not an exact key raises KeyError with the store unchanged; otherwise the group is appended |
| Irc.QueueCommand | irc.py:102-127 | never touches the store or raises; one argument queues exactly one record carrying the command's name and the argument list; any other count gives only the usage line |
| Irc.RemoveHostmaskCommand | irc.py:139-144 | a count other than two gives the usage line; a hostmask the known user lacks raises ValueError with the store unchanged; otherwise the store is `remove_user_hostmask`'s, and the reply puts the user in the hostmask slot |
| Irc.RemoveGroupCommand | irc.py:146-151 | one argument raises TypeError, since `remove_group` needs two, and nothing changes; any other count gives the usage line |
| Irc.RemoveUserCommand | irc.py:153-158 | a count other than one gives the usage line; otherwise the lower-cased user is gone and the reply claims the removal even when the user was unknown |
| Irc.Dispatch | irc.py:64 | the table maps each command name to its own handler (each store command to its handler, the two help commands to their help lists); on a wrong argument count a handler gives only its usage line; block, blockdelete and delete queue exactly one record, and no other command queues anything; removegroup raises TypeError; a raise changes nothing and says nothing; otherwise exactly one thing is said or queued; only the five store commands touch the store |
| Irc.HandleCommand | irc.py:56-66 | an unknown lower-cased name does nothing; a known name from an unauthorised sender gets exactly the denial; otherwise the handler runs on the space-split options |
| Irc.ParseLine | irc.py:200-207 | a line is a command exactly when it starts with '.'; the command is the text before the first space with the dots around it stripped, and the options are the rest, or "" when there is no space |
| Irc.Privmsg | irc.py:188-208 | a sender without '@' raises IndexError; a private message gets only the refusal; a non-command line does nothing; a command reaches the handler with the nick and the hostmask |
| Irc.PrivateLinesNeverDispatch | irc.py:193-196 | a message to the bot's own nick never changes the store and causes only a private reply |
| Irc.UnauthorisedLinesChangeNothing | irc.py:60-66 | an unauthorised sender never changes the store or queues work: at most the single denial is said |
| Irc.EmptyOptionsPassSingleArity | irc.py:102-109 | `.block` with no options queues a block of `[""]`, because empty options split to one empty argument |
| Irc.QueuedOptionsAreTheWords | irc.py:102-127 | an authorised block, blockdelete or delete with one word queues exactly one record with that command and that word, and says nothing |
| Irc.DispatchKeepsKeysLower | irc.py:81-158 | no handler breaks the all-keys-lower-case shape of the store |
| Irc.HandleCommandKeepsKeysLower | irc.py:56-66 | handling any command keeps the all-keys-lower-case shape of the store |
| Irc.LinesKeepKeysLower | irc.py:188-208 | no line of any kind breaks the all-keys-lower-case shape of the store |
| Irc.MixedCaseNickNeverAuthorised | irc.py:68-79 | with lower-case keys, a nick holding an upper-case letter is never authorised for any command |
| Irc.SenderParts | irc.py:189-190 | from the prefix `nick!ident@host` the user name is `nick` and the hostmask is `host` |
| Irc.CommandLineParts | irc.py:200-207 | the line `.name rest` parses to command `name` and options `rest` |
| Irc.ChannelCommandReachesHandler | irc.py:188-208 | the channel line `.name rest` from `nick!ident@host` reaches the handler as command `name`, options `rest`, user `nick`, hostmask `host` |
| Irc.AddUserBuildsScenarioStore | irc.py:88-91 | `.adduser alice example.com Admin` stores alice with group `admin` and hostmask `example.com` |
| Irc.AdminDeleteIsQueued | irc.py:56-66 | a trusted admin's `.delete SpamPage` queues exactly that delete and says nothing |
| Irc.OtherHostmaskIsDenied | irc.py:63-66 | the same nick from a hostmask it does not hold gets exactly the denial |
| Irc.TwoWordBlockGetsUsage | irc.py:102-109 | the admin's `.block a b` gets the usage line and queues nothing |
| Timestamps.Tick | wiki.py:120 | adding one second overflows exactly at 9999-12-31T23:59:59; otherwise the result is a valid datetime strictly later than the input |
| Timestamps.TickAddsOneSecond | wiki.py:120 | the successor is exactly one second later on an independent seconds-since-year-1 clock, across minute, hour, day, month and year carries and leap years |
| Timestamps.ParseTimestamp | wiki.py:119 | every parsed timestamp is a valid datetime whose formatted form is the input text |
| Timestamps.ParseFormat | wiki.py:119-121 | parsing the formatted form of a valid datetime gives it back, so parsing and formatting are inverse |
| Timestamps.FormatOrder | wiki.py:121 | one formatted timestamp is less than another as a string exactly when it is earlier in time |
| Timestamps.NewTimeStamp | wiki.py:118-121 | unparseable text raises ValueError; the last representable second raises OverflowError; a result before 1900 raises ValueError; otherwise it succeeds |
| Timestamps.NewTimeStampAdvances | wiki.py:118-121 | a successful result is in the same 20-character format, names exactly the next second, and sorts strictly after its input as a string |
| Wiki.Line | wiki.py:131-147 | no template formats to the empty string, so `message if message else None` never discards a template's line |
| Wiki.LineShape | wiki.py:131-147 | a new account's line ends with the user; every other line starts with the user and ends with the comment |
| Wiki.MessageNamesItsUser | wiki.py:128-147 | every announcement is about the record's user and names it; the four commented templates end with the comment as shown ("-" when empty) |
| Wiki.MakeMessage | wiki.py:123-147 | raises exactly for a missing comment, a log record without a log type, or a block whose title has no ':'; returns None exactly when no template applies; the templates show an empty comment as "-" and a block by the title text after the first ':' |
| Wiki.MakeMessages | wiki.py:39 | one message per record in input order; or, when some record raises, the exception of the first such record, every earlier record having formatted |
| Wiki.Window | wiki.py:29-30 | the query starting at a cursor returns exactly the records stamped at or after it |
| Wiki.RecentChanges | wiki.py:21-39 | an unset cursor starts at `now`; a failed fetch or an empty batch leaves the cursor alone; otherwise the cursor becomes `newTimeStamp` of the last record's stamp, or stays put if that raises |
| Wiki.PolledRecordsAreNotRefetched | wiki.py:36-37 | after a batch ending at stamp T, the new cursor is after every record of the batch, so polling the same records again reports nothing |
| Wiki.CursorNeverMovesBack | wiki.py:23-37 | the cursor after a poll is never before the one the query started from, and strictly after it whenever it moved |
| Wiki.WithExtra | wiki.py:61-62 | with no extra words the reason is unchanged; otherwise it is the reason, one space, then the words joined by spaces |
| Wiki.ExtraWordsRecoverable | wiki.py:107-108 | the extra words can be read back by splitting what follows the original reason |
| Wiki.DeletePage | wiki.py:60-65 | exactly one delete of the page, with the reason `WithExtra(reason, extra)`: the given reason, then the extra words after one space when there are any; returns "Page X deleted" |
| Wiki.BlockUser | wiki.py:106-111 | exactly one indefinite block with autoblock and no account creation, with the reason `WithExtra(reason, extra)`; returns "User X blocked" |
| Wiki.RevertPage | wiki.py:78-89 | always asks for a token; rolls back exactly when a non-empty token came back; returns "Page X reverted to previous edit" either way |
| Wiki.RemoveAllChanges | wiki.py:67-76 | acts once on each distinct title, in order of first appearance: delete when that first contribution created the page, revert otherwise |
| Wiki.BlockAndRemovePages | wiki.py:113-116 | plans all removals, then one block of the user last; returns "User X blocked, pages deleted" |
| Wiki.RemovalsNeverBlock | wiki.py:67-76 | carrying out a removal plan never blocks anybody |
| Wiki.BlockIsTheLastCall | wiki.py:113-116 | once carried out, the block is the very last wiki call and no earlier call blocks |
| Wiki.RemovalPlanNeverBlocks | wiki.py:67-76 | the plan of `removeAllChanges` holds only deletes and reverts |
| Wiki.PlannedBlockIsTheLastCall | wiki.py:113-116 | for the plan `blockAndRemovePages` makes, the block of the user is the last wiki call and no earlier call blocks anybody |

## Left out

- The output thread `IRCReadInThread`, the Twisted connection callbacks, `IRCFactory` and `start`
  (irc.py:15-30, 161-186, 210-243). These are threads, blocking queues, sleeps and network I/O.
  The queues appear only as the `Enqueue` effect.
- The per-line ASCII encode, the 510-character split and the one-second pause when sending
  (irc.py:29-30). These are transport details.
- `_load_config` and `_save_config` (permissions.py:69-80). The store lives in memory, and the JSON
  file write after each mutation is not recorded.
- All calls into the wiki client library: login, `APIRequest`, the `Page` and `User` objects, the
  `userEdits` query, the response parsing in `getRollbackToken`, and `pageText` (wiki.py:17-19,
  34, 41-58, 92-103). Their answers are parameters, and the calls are `Call` values in a plan.
- The UTF-8 decode loop at the top of `makeMessage` (wiki.py:125-126). A `Change` holds only
  string fields, taken as already decoded. In the source the loop runs over every field before any
  template. An integer-valued field, such as `ns` or the `logid` that `rcprop=loginfo` adds, has no
  `decode` method and raises AttributeError. A unicode value with a non-ASCII character raises
  UnicodeEncodeError. Neither exception is modelled.
- The wall-clock initial cursor (wiki.py:15, 24). It is the `now` parameter.
- `main.py` and `WikIRC.py`. They bootstrap the configuration and call constructors and methods
  that these files do not define. Nothing shown here reads the wiki-side queue, so the handler
  methods are modelled on their own.
- Debug `print` statements.
- Timestamps.ParseTimestamp: accepts only the zero-padded 20-character form with upper-case
  `T` and `Z`. `strptime` matches case-insensitively, so it also accepts a lower-case `t` or `z`.
  It accepts a space-padded day such as " 1" and one-digit month, day, hour, minute and second
  fields. The model rejects all of those inputs.
- Wiki.RecentChanges: does not model the 25-record limit of the query (`rclimit`). The batch is
  whatever the wiki returned. The model therefore cannot show that, in a full batch of 25, changes
  beyond the 25th that share its second are skipped by the one-second cursor nudge.
- Wiki.InWindow: orders stamps as strings, while the wiki compares them as times. The two orders
  agree on the fixed-width form (`Timestamps.FormatOrder`).
- Py.Lower: folds only ASCII letters, as Python 2 byte strings do. Unicode case folding is not
  modelled.
- Wiki.MakeMessage: assumes the record's `type`, `user`, `title` and `timestamp` keys are always
  present, as the query requests them. Only a missing `comment` or `logtype` is modelled as
  KeyError.
- Wiki.BlockAndRemovePages: the plan is the run in which no wiki call fails. In the source, a
  raising `userEdits` query, rollback-token request, rollback or `Page.delete` ends the method at
  that call. The rest of the plan then never runs, so there is no block and no message. Those
  partial runs are not modelled.
- Wiki.RemoveAllChanges: the plan is the run in which no wiki call fails. A raising `userEdits`
  query, rollback-token request, rollback or `Page.delete` ends the loop at that call, so the
  titles after it are never fixed. Those partial runs are not modelled.
- Irc.QueueCommand: a string stands for valid UTF-8 text. The IRC library hands `privmsg` raw
  bytes, and Python 2 `json.dumps` decodes byte strings as UTF-8. An argument that is not valid
  UTF-8 therefore makes `json.dumps` raise UnicodeDecodeError in the three queue handlers
  (irc.py:107, 116, 125), so nothing is queued and the exception escapes. The same holds after
  every store mutation: `_save_config` (permissions.py:77-80) raises once the in-memory store has
  changed and before any reply is said. Neither exception is modelled.
