/** The permission store of the IRC side (`AuthHandler`): a map from user name
    to that user's permission groups and trusted hostmasks. Both lists keep
    insertion order and may hold duplicates. Key lower-casing is deliberately
    inconsistent, as in permissions.py: the operations that create the key, look
    it up by hostmask-adding or remove anything by user name lower-case it;
    group addition, group removal and the authorisation lookup do not. */
module Permissions {
  import opened Py

  datatype Entry = Entry(groups: seq<string>, hostmasks: seq<string>)

  type Store = map<string, Entry>

  /** What `remove_user` and `remove_user_hostmask` hand back: the store after
      the call, and whether the call returned `False` (unknown user) rather
      than `None`. */
  datatype Removal = Removal(store: Store, returnedFalse: bool)

  /** Every key is lower-case: the shape `add_user` keeps the store in. */
  predicate KeysLower(s: Store) {
    forall k :: k in s ==> IsLower(k)
  }

  /** `list.remove(x)`: drop the first occurrence, or raise ValueError. */
  function ListRemove(xs: seq<string>, x: string): (r: Result<seq<string>>)
    ensures r.Raised? <==> x !in xs
    ensures r.Raised? ==> r.error == ValueError
    ensures r.Ok? ==> |r.value| == |xs| - 1
    ensures r.Ok? ==> r.value == xs[..IndexOf(xs, x)] + xs[IndexOf(xs, x) + 1..]
    ensures r.Ok? ==> multiset(r.value) + multiset{x} == multiset(xs)
  {
    if x in xs then
      var i := IndexOf(xs, x);
      assert xs == xs[..i] + [x] + xs[i + 1..];
      Ok(xs[..i] + xs[i + 1..])
    else Raised(ValueError)
  }

  /** `add_user`: creates or overwrites the entry under the lower-cased name
      with exactly one (lower-cased) group and one (verbatim) hostmask. */
  function AddUser(s: Store, username: string, hostmask: string, group: string): (r: Store)
    ensures r.Keys == s.Keys + {Lower(username)}
    ensures r[Lower(username)].groups == [Lower(group)]
    ensures r[Lower(username)].hostmasks == [hostmask]
    ensures forall k :: k in s && k != Lower(username) ==> r[k] == s[k]
  {
    var key := Lower(username);
    s[key := Entry([Lower(group)], [hostmask])]
  }

  /** `add_user_group`: appends under the name exactly as given; KeyError when
      no entry has that exact key. */
  function AddUserGroup(s: Store, username: string, group: string): (r: Result<Store>)
    ensures r.Raised? <==> username !in s
    ensures r.Raised? ==> r.error == KeyError
    ensures r.Ok? ==> r.value.Keys == s.Keys
    ensures r.Ok? ==> r.value[username].hostmasks == s[username].hostmasks
    ensures r.Ok? ==> |r.value[username].groups| == |s[username].groups| + 1
    ensures r.Ok? ==> r.value[username].groups[..|s[username].groups|] == s[username].groups
    ensures r.Ok? ==> r.value[username].groups[|s[username].groups|] == group
    ensures r.Ok? ==> forall k :: k in s && k != username ==> r.value[k] == s[k]
  {
    if username in s then
      var e := s[username];
      Ok(s[username := e.(groups := e.groups + [group])])
    else Raised(KeyError)
  }

  /** `add_user_hostmask`: appends under the lower-cased name; KeyError when
      that key is absent. */
  function AddUserHostmask(s: Store, username: string, hostmask: string): (r: Result<Store>)
    ensures r.Raised? <==> Lower(username) !in s
    ensures r.Raised? ==> r.error == KeyError
    ensures r.Ok? ==> r.value.Keys == s.Keys
    ensures r.Ok? ==> r.value[Lower(username)].groups == s[Lower(username)].groups
    ensures r.Ok? ==> |r.value[Lower(username)].hostmasks| == |s[Lower(username)].hostmasks| + 1
    ensures r.Ok? ==> r.value[Lower(username)].hostmasks[..|s[Lower(username)].hostmasks|] == s[Lower(username)].hostmasks
    ensures r.Ok? ==> r.value[Lower(username)].hostmasks[|s[Lower(username)].hostmasks|] == hostmask
    ensures r.Ok? ==> forall k :: k in s && k != Lower(username) ==> r.value[k] == s[k]
  {
    var key := Lower(username);
    if key in s then
      var e := s[key];
      Ok(s[key := e.(hostmasks := e.hostmasks + [hostmask])])
    else Raised(KeyError)
  }

  /** `get_group_list`: the filter of its comprehension names an undefined
      global, which is evaluated only once some user holds a group. Until
      then the list comes back empty. */
  function GetGroupList(s: Store): (r: Result<seq<string>>)
    ensures r.Raised? <==> exists k :: k in s && |s[k].groups| > 0
    ensures r.Raised? ==> r.error == NameError
    ensures r.Ok? ==> r.value == []
  {
    if exists k :: k in s && |s[k].groups| > 0 then Raised(NameError) else Ok([])
  }

  /** A store built with `add_user` holds a group, so from then on
      `get_group_list` raises; a fresh store lists no groups. */
  lemma GroupListRaisesOnceAGroupExists(s: Store, username: string, hostmask: string, group: string)
    ensures GetGroupList(map[]) == Ok([])
    ensures GetGroupList(AddUser(s, username, hostmask, group)) == Raised(NameError)
  {
    var key := Lower(username);
    assert |AddUser(s, username, hostmask, group)[key].groups| > 0;
  }

  /** `get_user_permissions`, the authorisation read path. It fails closed:
      groups come back only for an exact key whose hostmask list holds the
      given hostmask. */
  function GetUserPermissions(s: Store, username: string, hostmask: string): (r: Option<seq<string>>)
    ensures r.Some? <==> username in s && hostmask in s[username].hostmasks
    ensures r.Some? ==> r.value == s[username].groups
  {
    var known := if username in s then s[username].hostmasks else [];
    if hostmask in known then
      assert username in s;
      Some(s[username].groups)
    else None
  }

  /** `remove_group`: drops the first occurrence of the group under the exact
      key; a missing user or group leaves the store as it was. */
  function RemoveGroup(s: Store, user: string, groupName: string): (r: Store)
    ensures !(user in s && groupName in s[user].groups) ==> r == s
    ensures user in s && groupName in s[user].groups ==>
      && r.Keys == s.Keys
      && r[user].hostmasks == s[user].hostmasks
      && |r[user].groups| == |s[user].groups| - 1
      && multiset(r[user].groups) + multiset{groupName} == multiset(s[user].groups)
      && r[user].groups == s[user].groups[..IndexOf(s[user].groups, groupName)]
                           + s[user].groups[IndexOf(s[user].groups, groupName) + 1..]
      && forall k :: k in s && k != user ==> r[k] == s[k]
  {
    if user in s && groupName in s[user].groups then
      var e := s[user];
      match ListRemove(e.groups, groupName)
      case Ok(gs) => s[user := e.(groups := gs)]
      case Raised(_) => s
    else s
  }

  /** `remove_user`: deletes the lower-cased key; an absent key is reported by
      returning False and leaves the store alone. */
  function RemoveUser(s: Store, username: string): (r: Removal)
    ensures r.returnedFalse <==> Lower(username) !in s
    ensures r.store.Keys == s.Keys - {Lower(username)}
    ensures forall k :: k in r.store ==> r.store[k] == s[k]
  {
    var key := Lower(username);
    if key in s then Removal(s - {key}, false) else Removal(s, true)
  }

  /** `remove_user_hostmask`: an unknown (lower-cased) user returns False; a
      known user loses the first occurrence of the hostmask, and a hostmask
      the user does not have raises ValueError, which nothing catches. */
  function RemoveUserHostmask(s: Store, username: string, hostmask: string): (r: Result<Removal>)
    ensures Lower(username) !in s ==> r == Ok(Removal(s, true))
    ensures r.Raised? <==> Lower(username) in s && hostmask !in s[Lower(username)].hostmasks
    ensures r.Raised? ==> r.error == ValueError
    ensures r.Ok? ==> (r.value.returnedFalse <==> Lower(username) !in s)
    ensures r.Ok? && !r.value.returnedFalse ==>
      && r.value.store.Keys == s.Keys
      && r.value.store[Lower(username)].groups == s[Lower(username)].groups
      && ListRemove(s[Lower(username)].hostmasks, hostmask) == Ok(r.value.store[Lower(username)].hostmasks)
      && forall k :: k in s && k != Lower(username) ==> r.value.store[k] == s[k]
  {
    var key := Lower(username);
    if key in s then
      var e := s[key];
      match ListRemove(e.hostmasks, hostmask)
      case Raised(err) => Raised(err)
      case Ok(hs) => Ok(Removal(s[key := e.(hostmasks := hs)], false))
    else Ok(Removal(s, true))
  }

  // ---------------------------------------------------------------------------
  // Properties relating several operations.

  /** After `add_user(u, h, g)` the lower-cased name with hostmask `h` is
      granted exactly the lower-cased group, and after a later
      `remove_user(u)` every lookup of that name fails. */
  lemma AddThenRemoveUser(s: Store, u: string, h: string, g: string, anyHostmask: string)
    ensures GetUserPermissions(AddUser(s, u, h, g), Lower(u), h) == Some([Lower(g)])
    ensures GetUserPermissions(RemoveUser(AddUser(s, u, h, g), u).store, Lower(u), anyHostmask) == None
  {
  }

  /** Every mutation keeps all keys lower-case: only `add_user` creates keys,
      and it lower-cases them. */
  lemma MutationsKeepKeysLower(s: Store, u: string, x: string, y: string)
    requires KeysLower(s)
    ensures KeysLower(AddUser(s, u, x, y))
    ensures AddUserGroup(s, u, x).Ok? ==> KeysLower(AddUserGroup(s, u, x).value)
    ensures AddUserHostmask(s, u, x).Ok? ==> KeysLower(AddUserHostmask(s, u, x).value)
    ensures KeysLower(RemoveGroup(s, u, x))
    ensures KeysLower(RemoveUser(s, u).store)
    ensures RemoveUserHostmask(s, u, x).Ok? ==> KeysLower(RemoveUserHostmask(s, u, x).value.store)
  {
    LowerIsLower(u);
  }

  /** Because the lookup does not lower-case, a name holding an upper-case
      letter finds nothing in a store whose keys are all lower-case, even
      right after `add_user` registered that very name. */
  lemma MixedCaseNameNeverFound(s: Store, u: string, h: string, g: string)
    requires KeysLower(s)
    requires !IsLower(u)
    ensures GetUserPermissions(s, u, h) == None
    ensures GetUserPermissions(AddUser(s, u, h, g), u, h) == None
    ensures AddUserGroup(AddUser(s, u, h, g), u, g) == Raised(KeyError)
  {
    MutationsKeepKeysLower(s, u, h, g);
  }
}
