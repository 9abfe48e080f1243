/** The wiki side of the bot (`WikiHandler`): turning a polled batch of recent
    changes into channel messages and a new cursor, and planning the
    moderation work of `deletePage`, `revertPage`, `blockUser`,
    `removeAllChanges` and `blockAndRemovePages`. Every call into the wiki
    client library is an abstract `Call` in a returned plan; what the library
    would answer (the fetched batch, a user's contributions, rollback tokens)
    comes in as a parameter. */
module Wiki {
  import opened Py
  import Timestamps

  // ---------------------------------------------------------------------------
  // Recent changes

  /** One record of the recentchanges list. `comment` is absent when the wiki
      hides it; `logtype` is present on log entries. */
  datatype Change = Change(kind: string, logtype: Option<string>, user: string, title: string,
                           comment: Option<string>, timestamp: string)

  /** An empty comment is shown as "-". */
  function ShownComment(comment: string): (r: string)
    ensures |r| > 0
    ensures comment != "" ==> r == comment
  {
    if comment == "" then "-" else comment
  }

  /** Whether `makeMessage` has a template for the record's type and log type. */
  predicate HasTemplate(c: Change) {
    || c.kind == "new"
    || c.kind == "edit"
    || (c.kind == "log" && c.logtype.Some? && c.logtype.value in {"newusers", "block", "delete"})
  }

  /** The announcement a template makes; `Line` gives its channel text. */
  datatype Notice =
    | NewPage(user: string, title: string, comment: string)
    | Edited(user: string, title: string, comment: string)
    | NewUser(user: string)
    | Blocked(user: string, target: string, comment: string)
    | Deleted(user: string, title: string, comment: string)

  /** The `%`-formatting of each template. No template formats to the empty
      string, so the closing `message if message else None` never turns a
      template's line into None. */
  function Line(n: Notice): (s: string)
    ensures |s| > 0
  {
    match n
    case NewPage(user, title, comment) => user + " made new page titled " + title + " with comment: " + comment
    case Edited(user, title, comment) => user + " edited " + title + " with comment: " + comment
    case NewUser(user) => "New user: " + user
    case Blocked(user, target, comment) => user + " blocked user " + target + " with comment " + comment
    case Deleted(user, title, comment) => user + " deleted page " + title + " with comment " + comment
  }

  /** `makeMessage`: the announcement for one record, None for a record with
      no template, or the exception the record's missing fields cause. */
  function MakeMessage(c: Change): (r: Result<Option<Notice>>)
    ensures r.Raised? <==>
      || c.comment.None?
      || (c.kind == "log" && c.logtype.None?)
      || (c.kind == "log" && c.logtype == Some("block") && ':' !in c.title)
    ensures r.Raised? ==> r.error == (if c.comment.Some? && c.logtype.Some? then IndexError else KeyError)
    ensures r.Ok? ==> (r.value.None? <==> !HasTemplate(c))
    ensures c.comment.Some? && c.kind == "new" ==>
      r == Ok(Some(NewPage(c.user, c.title, ShownComment(c.comment.value))))
    ensures c.comment.Some? && c.kind == "edit" ==>
      r == Ok(Some(Edited(c.user, c.title, ShownComment(c.comment.value))))
    ensures c.comment.Some? && c.kind == "log" && c.logtype == Some("newusers") ==>
      r == Ok(Some(NewUser(c.user)))
    ensures c.comment.Some? && c.kind == "log" && c.logtype == Some("block") && ':' in c.title ==>
      r == Ok(Some(Blocked(c.user, c.title[IndexOf(c.title, ':') + 1..], ShownComment(c.comment.value))))
    ensures c.comment.Some? && c.kind == "log" && c.logtype == Some("delete") ==>
      r == Ok(Some(Deleted(c.user, c.title, ShownComment(c.comment.value))))
  {
    match c.comment
    case None => Raised(KeyError)
    case Some(text) =>
      var comment := ShownComment(text);
      if c.kind == "new" then Ok(Some(NewPage(c.user, c.title, comment)))
      else if c.kind == "edit" then Ok(Some(Edited(c.user, c.title, comment)))
      else if c.kind == "log" then
        match c.logtype
        case None => Raised(KeyError)
        case Some(logtype) =>
          if logtype == "newusers" then Ok(Some(NewUser(c.user)))
          else if logtype == "block" then
            var parts := SplitOnce(c.title, ':');
            if |parts| < 2 then Raised(IndexError)
            else Ok(Some(Blocked(c.user, parts[1], comment)))
          else if logtype == "delete" then Ok(Some(Deleted(c.user, c.title, comment)))
          else Ok(None)
      else Ok(None)
  }

  /** The shape of every template line: a new account's line ends with the
      user, every other line starts with the user and ends with the comment. */
  lemma LineShape(n: Notice)
    ensures var s := Line(n);
      if n.NewUser? then |s| >= |n.user| && s[|s| - |n.user|..] == n.user
      else && |s| >= |n.user| && s[..|n.user|] == n.user
           && |s| >= |n.comment| && s[|s| - |n.comment|..] == n.comment
  {
    match n
    case NewPage(user, title, comment) =>
      Framed(user, " made new page titled " + title + " with comment: ", comment);
    case Edited(user, title, comment) =>
      Framed(user, " edited " + title + " with comment: ", comment);
    case NewUser(user) =>
    case Blocked(user, target, comment) =>
      Framed(user, " blocked user " + target + " with comment ", comment);
    case Deleted(user, title, comment) =>
      Framed(user, " deleted page " + title + " with comment ", comment);
  }

  lemma Framed(head: string, middle: string, tail: string)
    ensures var s := head + middle + tail;
      && |s| >= |head| && s[..|head|] == head
      && |s| >= |tail| && s[|s| - |tail|..] == tail
  {
    var s := head + middle + tail;
    assert s == head + (middle + tail);
  }

  /** Every announcement names the record's user: at the head of the line,
      or at its end for a new account; and the four templates that quote the
      comment end with the shown comment. */
  lemma MessageNamesItsUser(c: Change, n: Notice)
    requires MakeMessage(c) == Ok(Some(n))
    ensures n.user == c.user
    ensures var s := Line(n);
      if n.NewUser? then |s| >= |c.user| && s[|s| - |c.user|..] == c.user
      else |s| >= |c.user| && s[..|c.user|] == c.user
    ensures !n.NewUser? ==> var s := Line(n); var shown := ShownComment(c.comment.value);
      |s| >= |shown| && s[|s| - |shown|..] == shown
  {
    assert c.comment.Some?;
    assert !n.NewUser? ==> n.comment == ShownComment(c.comment.value);
    LineShape(n);
  }

  /** The list comprehension over the batch: one entry per record, in order,
      unless some record raises, in which case the first failure escapes. */
  function MakeMessages(batch: seq<Change>): (r: Result<seq<Option<Notice>>>)
    ensures r.Ok? ==> |r.value| == |batch|
    ensures r.Ok? ==> forall i :: 0 <= i < |batch| ==> MakeMessage(batch[i]) == Ok(r.value[i])
    ensures r.Raised? <==> exists i :: 0 <= i < |batch| && MakeMessage(batch[i]).Raised?
    ensures r.Raised? ==> exists i :: 0 <= i < |batch| && MakeMessage(batch[i]) == Raised(r.error)
                                     && forall j :: 0 <= j < i ==> MakeMessage(batch[j]).Ok?
  {
    if |batch| == 0 then Ok([])
    else
      match MakeMessage(batch[0])
      case Raised(e) => Raised(e)
      case Ok(m) =>
        assert forall i :: 1 <= i < |batch| ==> batch[i] == batch[1..][i - 1];
        match MakeMessages(batch[1..])
        case Raised(e) => Raised(e)
        case Ok(ms) => Ok([m] + ms)
  }

  /** What the recentchanges query returned: the batch, or a failure. */
  datatype Fetch = Fetched(batch: seq<Change>) | FetchFailed

  /** One poll: the cursor the query started from, the cursor afterwards, and
      the messages or the exception that escaped. */
  datatype Poll = Poll(requestedFrom: string, cursor: string, messages: Result<seq<Option<Notice>>>)

  /** A record the query starting at `from` returns (rcdir=newer: every
      record stamped at or after the start). */
  predicate InWindow(from: string, c: Change) {
    LexLeq(from, c.timestamp)
  }

  function Window(log: seq<Change>, from: string): (w: seq<Change>)
    ensures forall c :: c in w <==> c in log && InWindow(from, c)
  {
    if |log| == 0 then []
    else
      var rest := Window(log[1..], from);
      assert forall c :: c in log <==> c == log[0] || c in log[1..];
      if InWindow(from, log[0]) then [log[0]] + rest else rest
  }

  lemma {:induction false} WindowOfLaterCursorIsEmpty(log: seq<Change>, from: string)
    requires forall i :: 0 <= i < |log| ==> !InWindow(from, log[i])
    ensures Window(log, from) == []
  {
    if |log| > 0 {
      WindowOfLaterCursorIsEmpty(log[1..], from);
    }
  }

  /** `recentChanges`: an unset cursor starts at `now`; a non-empty batch moves
      the cursor one second past its last record, and only then are the
      messages built, so a record that raises loses the whole batch. */
  function RecentChanges(cursor: string, now: string, fetch: Fetch): (r: Poll)
    ensures r.requestedFrom == (if cursor == "" then now else cursor)
    ensures fetch.FetchFailed? ==> r.cursor == r.requestedFrom && r.messages == Raised(RemoteError)
    ensures fetch.Fetched? && |fetch.batch| == 0 ==> r.cursor == r.requestedFrom && r.messages == Ok([])
    ensures fetch.Fetched? && |fetch.batch| > 0 && Timestamps.NewTimeStamp(fetch.batch[|fetch.batch| - 1].timestamp).Ok? ==>
      && r.cursor == Timestamps.NewTimeStamp(fetch.batch[|fetch.batch| - 1].timestamp).value
      && r.messages == MakeMessages(fetch.batch)
    ensures fetch.Fetched? && |fetch.batch| > 0 && Timestamps.NewTimeStamp(fetch.batch[|fetch.batch| - 1].timestamp).Raised? ==>
      && r.cursor == r.requestedFrom
      && r.messages == Raised(Timestamps.NewTimeStamp(fetch.batch[|fetch.batch| - 1].timestamp).error)
  {
    var from := if cursor == "" then now else cursor;
    match fetch
    case FetchFailed => Poll(from, from, Raised(RemoteError))
    case Fetched(batch) =>
      if |batch| == 0 then Poll(from, from, Ok([]))
      else
        var nudged := Timestamps.NewTimeStamp(batch[|batch| - 1].timestamp);
        if nudged.Ok? then Poll(from, nudged.value, MakeMessages(batch))
        else Poll(from, from, Raised(nudged.error))
  }

  /** The cursor nudge: after a batch whose records are stamped no later than
      its last one, the new cursor is strictly later than every record, so
      the next query returns none of them and the next poll of the same
      records reports nothing. */
  lemma PolledRecordsAreNotRefetched(cursor: string, now: string, batch: seq<Change>)
    requires |batch| > 0
    requires forall i :: 0 <= i < |batch| ==> LexLeq(batch[i].timestamp, batch[|batch| - 1].timestamp)
    requires Timestamps.NewTimeStamp(batch[|batch| - 1].timestamp).Ok?
    ensures var p := RecentChanges(cursor, now, Fetched(batch));
      && (forall i :: 0 <= i < |batch| ==> !InWindow(p.cursor, batch[i]))
      && Window(batch, p.cursor) == []
      && RecentChanges(p.cursor, now, Fetched(Window(batch, p.cursor))).messages == Ok([])
  {
    var last := batch[|batch| - 1].timestamp;
    var next := Timestamps.NewTimeStamp(last).value;
    Timestamps.NewTimeStampAdvances(last);
    assert next != "";
    forall i | 0 <= i < |batch|
      ensures !InWindow(next, batch[i])
    {
      var t := batch[i].timestamp;
      if t != last {
        LexLessTransitive(t, last, next);
      }
      LexLessAsymmetric(t, next);
    }
    WindowOfLaterCursorIsEmpty(batch, next);
  }

  /** The cursor never moves back: when the batch came from the window the
      query asked for, the cursor afterwards is at or after the one the query
      started from, and strictly after it whenever it moved. */
  lemma CursorNeverMovesBack(cursor: string, now: string, fetch: Fetch)
    requires fetch.Fetched? ==> forall i :: 0 <= i < |fetch.batch| ==>
      InWindow(if cursor == "" then now else cursor, fetch.batch[i])
    ensures var p := RecentChanges(cursor, now, fetch);
      LexLeq(p.requestedFrom, p.cursor) && (p.cursor != p.requestedFrom ==> LexLess(p.requestedFrom, p.cursor))
  {
    var p := RecentChanges(cursor, now, fetch);
    if fetch.Fetched? && |fetch.batch| > 0 {
      var last := fetch.batch[|fetch.batch| - 1].timestamp;
      if Timestamps.NewTimeStamp(last).Ok? {
        Timestamps.NewTimeStampAdvances(last);
        assert InWindow(p.requestedFrom, fetch.batch[|fetch.batch| - 1]);
        if p.requestedFrom != last {
          LexLessTransitive(p.requestedFrom, last, p.cursor);
        }
      }
    }
  }

  // ---------------------------------------------------------------------------
  // Moderation

  /** A call into the wiki client library against the shared session. */
  datatype Call =
    | PageDelete(title: string, reason: string)              // Page(title).delete(reason)
    | RollbackTokenQuery(title: string)                      // getRollbackToken(page.pageid)
    | Rollback(title: string, user: string, token: string)  // action=rollback, markbot=1
    | UserBlock(user: string, reason: string, autoblock: bool, expiry: string, nocreate: bool)

  /** The calls one `WikiHandler` method makes, and the string it returns. */
  datatype Done = Done(calls: seq<Call>, message: string)

  const DeleteReason := "spam"
  const BlockReason := "spambot"

  /** The reason `deletePage` and `blockUser` send: the given reason, then the
      extra words after a single space, joined by spaces. */
  function WithExtra(reason: string, extra: seq<string>): (r: string)
    ensures |extra| == 0 ==> r == reason
    ensures |extra| > 0 ==> |r| > |reason| && r[..|reason|] == reason && r[|reason|] == ' '
    ensures |extra| > 0 ==> r[|reason| + 1..] == Join(extra, ' ')
  {
    if |extra| > 0 then reason + " " + Join(extra, ' ') else reason
  }

  /** The extra words can be read back from the reason: splitting what
      follows the original reason returns them, when none holds a space. */
  lemma ExtraWordsRecoverable(reason: string, extra: seq<string>)
    requires |extra| > 0
    requires forall i :: 0 <= i < |extra| ==> ' ' !in extra[i]
    ensures Split(WithExtra(reason, extra)[|reason| + 1..], ' ') == extra
  {
    SplitJoin(extra, ' ');
  }

  /** `deletePage(title, reason, *args)`: exactly one delete of that page,
      whose reason opens with the given one, then "Page X deleted". */
  function DeletePage(title: string, reason: string, extra: seq<string>): (r: Done)
    ensures |r.calls| == 1 && r.calls[0].PageDelete? && r.calls[0].title == title
    ensures r.calls[0].reason == WithExtra(reason, extra)
    ensures |r.calls[0].reason| >= |reason| && r.calls[0].reason[..|reason|] == reason
    ensures |extra| == 0 <==> r.calls[0].reason == reason
    ensures r.message == "Page " + title + " deleted"
  {
    Done([PageDelete(title, WithExtra(reason, extra))], "Page " + title + " deleted")
  }

  /** `blockUser(user, reason, *args)`: exactly one indefinite block of that
      user with autoblock and account creation disabled, whose reason opens
      with the given one, then "User X blocked". */
  function BlockUser(user: string, reason: string, extra: seq<string>): (r: Done)
    ensures |r.calls| == 1 && r.calls[0].UserBlock? && r.calls[0].user == user
    ensures r.calls[0].autoblock && r.calls[0].expiry == "never" && r.calls[0].nocreate
    ensures r.calls[0].reason == WithExtra(reason, extra)
    ensures |r.calls[0].reason| >= |reason| && r.calls[0].reason[..|reason|] == reason
    ensures |extra| == 0 <==> r.calls[0].reason == reason
    ensures r.message == "User " + user + " blocked"
  {
    Done([UserBlock(user, WithExtra(reason, extra), true, "never", true)], "User " + user + " blocked")
  }

  /** `revertPage(user, title)`: ask for a rollback token (the answer is
      `token`; the wiki's False becomes None) and roll back only when a
      non-empty token came back. The returned string claims the revert
      either way. */
  function RevertPage(user: string, title: string, token: Option<string>): (r: Done)
    ensures |r.calls| >= 1 && r.calls[0] == RollbackTokenQuery(title)
    ensures |r.calls| == 2 <==> token.Some? && token.value != ""
    ensures |r.calls| == 2 ==> r.calls[1] == Rollback(title, user, token.value)
    ensures |r.calls| <= 2
    ensures r.message == "Page " + title + " reverted to previous edit"
  {
    var calls := if token.Some? && token.value != "" then [Rollback(title, user, token.value)] else [];
    Done([RollbackTokenQuery(title)] + calls, "Page " + title + " reverted to previous edit")
  }

  /** One entry of the user's contribution list: its page and whether the
      entry carries the `new` key (it created the page). */
  datatype Contribution = Contribution(title: string, isNew: bool)

  /** A call of one of the handler's own methods, as `removeAllChanges` and
      `blockAndRemovePages` plan them (default reasons, no extra words). */
  datatype Action =
    | DeleteAction(title: string)
    | RevertAction(user: string, title: string)
    | BlockAction(user: string)

  function Titles(edits: seq<Contribution>): (ts: seq<string>)
    ensures |ts| == |edits|
    ensures forall i :: 0 <= i < |edits| ==> ts[i] == edits[i].title
  {
    seq(|edits|, i requires 0 <= i < |edits| => edits[i].title)
  }

  /** The position of a title's first contribution. */
  function FirstIndex(edits: seq<Contribution>, title: string): (i: nat)
    requires title in Titles(edits)
    ensures i < |edits| && edits[i].title == title
    ensures forall j :: 0 <= j < i ==> edits[j].title != title
  {
    var i := IndexOf(Titles(edits), title);
    assert forall j :: 0 <= j < i ==> Titles(edits)[j] in Titles(edits)[..i];
    i
  }

  /** A title that none of the titles seen so far covers is first contributed
      at the current position. */
  lemma FirstIndexOfNewTitle(edits: seq<Contribution>, seen: seq<string>, i: nat)
    requires i < |edits| && edits[i].title !in seen
    requires forall j :: 0 <= j < i ==> edits[j].title in seen
    ensures edits[i].title in Titles(edits)
    ensures FirstIndex(edits, edits[i].title) == i
  {
    assert Titles(edits)[i] == edits[i].title;
  }

  /** What is done about a title: delete the page if the user's first
      contribution to it created it, otherwise revert the user's edit. */
  function FixFor(user: string, edits: seq<Contribution>, title: string): Action
    requires title in Titles(edits)
  {
    if edits[FirstIndex(edits, title)].isNew then DeleteAction(title) else RevertAction(user, title)
  }

  /** The plan `removeAllChanges` makes: one action per distinct title of the
      contributions, titles in order of first appearance, each chosen by the
      title's first contribution. */
  predicate IsRemovalPlan(user: string, edits: seq<Contribution>, titles: seq<string>, plan: seq<Action>) {
    && |plan| == |titles|
    && (forall k :: 0 <= k < |titles| ==> titles[k] in Titles(edits) && plan[k] == FixFor(user, edits, titles[k]))
    && (forall j, k :: 0 <= j < k < |titles| ==> FirstIndex(edits, titles[j]) < FirstIndex(edits, titles[k]))
    && (forall i :: 0 <= i < |edits| ==> edits[i].title in titles)
  }

  /** The loop state of `removeAllChanges` after the first `i` contributions:
      one action per distinct title seen so far, in order of first
      appearance. */
  predicate PlanSoFar(user: string, edits: seq<Contribution>, i: nat, titles: seq<string>, plan: seq<Action>) {
    && i <= |edits|
    && |plan| == |titles|
    && (forall k :: 0 <= k < |titles| ==>
          titles[k] in Titles(edits) && FirstIndex(edits, titles[k]) < i && plan[k] == FixFor(user, edits, titles[k]))
    && (forall j, k :: 0 <= j < k < |titles| ==> FirstIndex(edits, titles[j]) < FirstIndex(edits, titles[k]))
    && (forall j :: 0 <= j < i ==> edits[j].title in titles)
  }

  /** A contribution to a title already fixed changes nothing. */
  lemma SeenTitleStep(user: string, edits: seq<Contribution>, i: nat, titles: seq<string>, plan: seq<Action>)
    requires i < |edits| && PlanSoFar(user, edits, i, titles, plan)
    requires edits[i].title in titles
    ensures PlanSoFar(user, edits, i + 1, titles, plan)
  {
  }

  /** A contribution to a new title is that title's first: the action it
      picks is the title's fix, and it comes after every earlier one. */
  lemma NewTitleStep(user: string, edits: seq<Contribution>, i: nat, titles: seq<string>, plan: seq<Action>)
    requires i < |edits| && PlanSoFar(user, edits, i, titles, plan)
    requires edits[i].title !in titles
    ensures PlanSoFar(user, edits, i + 1, titles + [edits[i].title],
                      plan + [if edits[i].isNew then DeleteAction(edits[i].title) else RevertAction(user, edits[i].title)])
  {
    FirstIndexOfNewTitle(edits, titles, i);
  }

  /** `removeAllChanges(user)` over the user's contributions `edits`; `titles`
      is the method's `fixedTitles` list. */
  method RemoveAllChanges(user: string, edits: seq<Contribution>) returns (titles: seq<string>, plan: seq<Action>)
    ensures IsRemovalPlan(user, edits, titles, plan)
  {
    titles, plan := [], [];
    var i := 0;
    while i < |edits|
      invariant PlanSoFar(user, edits, i, titles, plan)
    {
      var title := edits[i].title;
      if title !in titles {
        NewTitleStep(user, edits, i, titles, plan);
        titles := titles + [title];
        plan := plan + [if edits[i].isNew then DeleteAction(title) else RevertAction(user, title)];
      } else {
        SeenTitleStep(user, edits, i, titles, plan);
      }
      i := i + 1;
    }
  }

  /** `blockAndRemovePages(user)`: every removal is planned before the one
      block, which comes last. */
  method BlockAndRemovePages(user: string, edits: seq<Contribution>) returns (plan: seq<Action>, message: string)
    ensures |plan| >= 1 && plan[|plan| - 1] == BlockAction(user)
    ensures exists titles {:trigger IsRemovalPlan(user, edits, titles, plan[..|plan| - 1])} :: IsRemovalPlan(user, edits, titles, plan[..|plan| - 1])
    ensures message == "User " + user + " blocked, pages deleted"
  {
    var titles, removals := RemoveAllChanges(user, edits);
    plan := removals + [BlockAction(user)];
    assert plan[..|plan| - 1] == removals;
    message := "User " + user + " blocked, pages deleted";
  }

  /** The calls an action makes; `tokens` holds the rollback token the wiki
      would hand out per title. */
  function Perform(a: Action, tokens: map<string, string>): Done {
    match a
    case DeleteAction(title) => DeletePage(title, DeleteReason, [])
    case RevertAction(user, title) => RevertPage(user, title, if title in tokens then Some(tokens[title]) else None)
    case BlockAction(user) => BlockUser(user, BlockReason, [])
  }

  /** All calls of a plan, in order. */
  function PerformAll(plan: seq<Action>, tokens: map<string, string>): seq<Call> {
    if |plan| == 0 then [] else Perform(plan[0], tokens).calls + PerformAll(plan[1..], tokens)
  }

  /** A removal plan never blocks anybody, so in a block-and-remove plan the
      block is the very last call made. */
  lemma {:induction false} RemovalsNeverBlock(plan: seq<Action>, tokens: map<string, string>)
    requires forall k :: 0 <= k < |plan| ==> !plan[k].BlockAction?
    ensures forall i :: 0 <= i < |PerformAll(plan, tokens)| ==> !PerformAll(plan, tokens)[i].UserBlock?
  {
    if |plan| > 0 {
      RemovalsNeverBlock(plan[1..], tokens);
    }
  }

  lemma BlockIsTheLastCall(user: string, removals: seq<Action>, tokens: map<string, string>)
    requires forall k :: 0 <= k < |removals| ==> !removals[k].BlockAction?
    ensures var calls := PerformAll(removals + [BlockAction(user)], tokens);
      && |calls| >= 1
      && calls[|calls| - 1] == UserBlock(user, BlockReason, true, "never", true)
      && forall i :: 0 <= i < |calls| - 1 ==> !calls[i].UserBlock?
  {
    PerformAllAppend(removals, [BlockAction(user)], tokens);
    RemovalsNeverBlock(removals, tokens);
  }

  /** `removeAllChanges` only deletes and reverts. */
  lemma RemovalPlanNeverBlocks(user: string, edits: seq<Contribution>, titles: seq<string>, plan: seq<Action>)
    requires IsRemovalPlan(user, edits, titles, plan)
    ensures forall k :: 0 <= k < |plan| ==> !plan[k].BlockAction?
  {
    forall k | 0 <= k < |plan|
      ensures !plan[k].BlockAction?
    {
      assert plan[k] == FixFor(user, edits, titles[k]);
    }
  }

  /** The plan of `blockAndRemovePages`, a removal plan followed by the
      block, blocks the user with its very last call and with no call before
      it. */
  lemma PlannedBlockIsTheLastCall(user: string, edits: seq<Contribution>, titles: seq<string>,
                                  removals: seq<Action>, tokens: map<string, string>)
    requires IsRemovalPlan(user, edits, titles, removals)
    ensures var calls := PerformAll(removals + [BlockAction(user)], tokens);
      && |calls| >= 1
      && calls[|calls| - 1] == UserBlock(user, BlockReason, true, "never", true)
      && forall i :: 0 <= i < |calls| - 1 ==> !calls[i].UserBlock?
  {
    RemovalPlanNeverBlocks(user, edits, titles, removals);
    BlockIsTheLastCall(user, removals, tokens);
  }

  lemma {:induction false} PerformAllAppend(a: seq<Action>, b: seq<Action>, tokens: map<string, string>)
    ensures PerformAll(a + b, tokens) == PerformAll(a, tokens) + PerformAll(b, tokens)
  {
    if |a| > 0 {
      assert (a + b)[1..] == a[1..] + b;
      PerformAllAppend(a[1..], b, tokens);
    } else {
      assert a + b == b;
    }
  }
}
