/**
 * `RealTimeUserStorage`: the in-memory registry of the real-time hub. It keeps two process-wide
 * dictionaries, user id to connection id (`_users`) and group name to the set of its members'
 * user ids (`_groupUsers`), updated in place under locks.
 *
 * A dictionary is the sequence of its entries in enumeration order, with unique keys; `Add`
 * appends, `Remove` drops the entry and keeps the order of the others, and the indexer setter
 * replaces an entry in place or appends a new one. A `HashSet` of members is a `set`.
 *
 * The module has the value-level rules (lookups and the dictionaries after each change, with
 * their lemmas) and the class that holds the two dictionaries and changes them by those rules.
 */
module RealTime {
  import opened Common
  import opened Linq

  /** A `_users` entry: a user and the connection registered for it. */
  datatype Entry = Entry(userId: string, connectionId: string)

  /** A `_groupUsers` entry: a group and the user ids of its members. */
  datatype Group = Group(name: string, members: set<string>)

  datatype StorageError =
    | /** `ArgumentException` from `Dictionary.Add`: the key is already present. */
      DuplicateKey(key: string)
    | /** `KeyNotFoundException` from reading the dictionary indexer with an absent key. */
      KeyNotFound(key: string)

  /** The outcome of adding a batch of users one by one: the new entries, how many got in, the exception that stopped it. */
  datatype Batch = Batch(users: seq<Entry>, added: nat, thrown: Option<StorageError>)

  predicate UniqueUsers(users: seq<Entry>)
  {
    forall i, j | 0 <= i < j < |users| :: users[i].userId != users[j].userId
  }

  predicate UniqueNames(groups: seq<Group>)
  {
    forall i, j | 0 <= i < j < |groups| :: groups[i].name != groups[j].name
  }

  function UserIds(users: seq<Entry>): set<string>
  {
    set i | 0 <= i < |users| :: users[i].userId
  }

  function GroupNames(groups: seq<Group>): set<string>
  {
    set i | 0 <= i < |groups| :: groups[i].name
  }

  function Elements(s: seq<string>): (r: set<string>)
    ensures forall x :: x in r <==> x in s
  {
    set i | 0 <= i < |s| :: s[i]
  }

  function HasUser(userId: string): Entry -> bool { (e: Entry) => e.userId == userId }

  function HasConnection(connectionId: string): Entry -> bool { (e: Entry) => e.connectionId == connectionId }

  function InGroup(members: set<string>): Entry -> bool { (e: Entry) => e.userId in members }

  function Listed(ids: seq<string>): Entry -> bool { (e: Entry) => e.userId in ids }

  function Includes(userId: string): Group -> bool { (g: Group) => userId in g.members }

  function Named(name: string): Group -> bool { (g: Group) => g.name == name }

  // ---------------------------------------------------------------------------------------------
  // Lookups.

  /** `GetConnectionIdByUserId`: the connection registered for the user, or `null`. */
  function ConnectionIdByUserId(users: seq<Entry>, userId: string): (r: Option<string>)
    ensures r.None? <==> userId !in UserIds(users)
    ensures r.Some? ==> Entry(userId, r.value) in users
  {
    match FirstOrDefault(users, HasUser(userId))
    case Some(e) => Some(e.connectionId)
    case None => None
  }

  /** With unique user ids, a stored user's connection is what the lookup finds. */
  lemma FindsStoredUser(users: seq<Entry>, i: nat)
    requires UniqueUsers(users) && i < |users|
    ensures ConnectionIdByUserId(users, users[i].userId) == Some(users[i].connectionId)
  {
    var r := ConnectionIdByUserId(users, users[i].userId);
    assert users[i].userId in UserIds(users);
    var j :| 0 <= j < |users| && users[j] == Entry(users[i].userId, r.value);
  }

  /** `GetUserIdByConnectionId`: the first user (in enumeration order) registered on the connection, or `null`. */
  function UserIdByConnectionId(users: seq<Entry>, connectionId: string): (r: Option<string>)
    ensures r.None? <==> forall i :: 0 <= i < |users| ==> users[i].connectionId != connectionId
    ensures r.Some? ==> exists i :: 0 <= i < |users| && users[i] == Entry(r.value, connectionId)
                                    && forall j :: 0 <= j < i ==> users[j].connectionId != connectionId
  {
    match FirstOrDefault(users, HasConnection(connectionId))
    case Some(e) => Some(e.userId)
    case None => None
  }

  /** `_groupUsers.FirstOrDefault(g => g.Value.Any(u => u.Equals(userId))).Key`: the first group the user is in. */
  function GroupOf(groups: seq<Group>, userId: string): (r: Option<string>)
    ensures r.None? <==> forall i :: 0 <= i < |groups| ==> userId !in groups[i].members
    ensures r.Some? ==> exists i :: 0 <= i < |groups| && groups[i].name == r.value && userId in groups[i].members
                                    && forall j :: 0 <= j < i ==> userId !in groups[j].members
  {
    match FirstOrDefault(groups, Includes(userId))
    case Some(g) => Some(g.name)
    case None => None
  }

  /**
   * `GetGroupNameByConnectionId`: the first group of the first user on the connection. When no
   * user is on it, the lookup runs on the default pair, whose key is `null` and in no group.
   */
  function GroupNameByConnectionId(users: seq<Entry>, groups: seq<Group>, connectionId: string): (r: Option<string>)
    ensures (forall i :: 0 <= i < |users| ==> users[i].connectionId != connectionId) ==> r.None?
    ensures r.Some? ==> exists i, j :: 0 <= i < |users| && 0 <= j < |groups| && users[i].connectionId == connectionId
                                       && users[i].userId in groups[j].members && groups[j].name == r.value
    ensures forall i :: 0 <= i < |users| && users[i].connectionId == connectionId
                        && (forall k :: 0 <= k < i ==> users[k].connectionId != connectionId)
                        ==> r == GroupOf(groups, users[i].userId)
  {
    match UserIdByConnectionId(users, connectionId)
    case Some(userId) => GroupOf(groups, userId)
    case None => None
  }

  /** `GetGroupNameByUserId`: for a registered user, the first group it is in; `null` otherwise. */
  function GroupNameByUserId(users: seq<Entry>, groups: seq<Group>, userId: string): (r: Option<string>)
    ensures userId !in UserIds(users) ==> r.None?
    ensures userId in UserIds(users) ==> r == GroupOf(groups, userId)
  {
    match FirstOrDefault(users, HasUser(userId))
    case Some(e) => GroupOf(groups, e.userId)
    case None => None
  }

  /** `_groupUsers.TryGetValue(name, out members)`. */
  function Members(groups: seq<Group>, name: string): (r: Option<set<string>>)
    ensures r.None? <==> name !in GroupNames(groups)
    ensures r.Some? ==> Group(name, r.value) in groups
  {
    match FirstOrDefault(groups, Named(name))
    case Some(g) => Some(g.members)
    case None => None
  }

  /**
   * `GetConnectionIdsByGroupName`: for an existing group, the connections of its members that are
   * registered, in the order of `_users`; for an absent group, the empty list.
   */
  function ConnectionIdsByGroupName(users: seq<Entry>, groups: seq<Group>, name: string): (r: seq<string>)
    ensures Members(groups, name).None? ==> r == []
    ensures Members(groups, name).Some? ==>
      var members := Members(groups, name).value;
      && |r| <= |users|
      && (forall c :: c in r ==>
            exists j :: 0 <= j < |users| && users[j].connectionId == c && users[j].userId in members)
      && (forall j :: 0 <= j < |users| && users[j].userId in members ==> users[j].connectionId in r)
  {
    match Members(groups, name)
    case Some(members) => MemberConnections(users, members)
    case None => []
  }

  function ConnectionOf(e: Entry): string { e.connectionId }

  /**
   * `_users.Where(u => members.Contains(u.Key)).Select(pair => pair.Value)`: the connections of
   * exactly the registered members.
   */
  function MemberConnections(users: seq<Entry>, members: set<string>): (r: seq<string>)
    ensures |r| <= |users|
    ensures forall c :: c in r ==>
      exists j :: 0 <= j < |users| && users[j].connectionId == c && users[j].userId in members
    ensures forall j :: 0 <= j < |users| && users[j].userId in members ==> users[j].connectionId in r
  {
    ConnectionsAreOfMembers(users, members);
    ConnectionsCoverMembers(users, members);
    Select(Where(users, InGroup(members)), ConnectionOf)
  }

  /** Every connection listed for a group belongs to a registered member. */
  lemma ConnectionsAreOfMembers(users: seq<Entry>, members: set<string>)
    ensures |Select(Where(users, InGroup(members)), ConnectionOf)| <= |users|
    ensures forall c :: c in Select(Where(users, InGroup(members)), ConnectionOf) ==>
      exists j :: 0 <= j < |users| && users[j].connectionId == c && users[j].userId in members
  {
    var registered := Where(users, InGroup(members));
    var r := Select(registered, ConnectionOf);
    forall c | c in r
      ensures exists j :: 0 <= j < |users| && users[j].connectionId == c && users[j].userId in members
    {
      var i :| 0 <= i < |r| && r[i] == c;
      assert registered[i] in users && InGroup(members)(registered[i]);
      var j :| 0 <= j < |users| && users[j] == registered[i];
      assert r[i] == users[j].connectionId;
    }
  }

  /** Every registered member's connection is listed for the group. */
  lemma ConnectionsCoverMembers(users: seq<Entry>, members: set<string>)
    ensures forall j :: 0 <= j < |users| && users[j].userId in members ==>
      users[j].connectionId in Select(Where(users, InGroup(members)), ConnectionOf)
  {
    var registered := Where(users, InGroup(members));
    var r := Select(registered, ConnectionOf);
    forall j | 0 <= j < |users| && users[j].userId in members
      ensures users[j].connectionId in r
    {
      assert InGroup(members)(users[j]);
      var k :| 0 <= k < |registered| && registered[k] == users[j];
      assert r[k] == users[j].connectionId;
    }
  }

  // ---------------------------------------------------------------------------------------------
  // `_users` after a change.

  /** `_users.Add(userId, connectionId)`: appended when new, `ArgumentException` when the key is taken. */
  function UserAdded(users: seq<Entry>, userId: string, connectionId: string): (r: Result<seq<Entry>, StorageError>)
    ensures r.Err? <==> userId in UserIds(users)
    ensures r.Err? ==> r.error == DuplicateKey(userId)
    ensures r.Ok? ==> r.value == users + [Entry(userId, connectionId)]
  {
    if userId in UserIds(users) then Err(DuplicateKey(userId))
    else Ok(users + [Entry(userId, connectionId)])
  }

  /** `_users.Remove(userId)`: the user's entry is gone, the others stay in order. */
  function UserRemoved(users: seq<Entry>, userId: string): (r: seq<Entry>)
    ensures userId !in UserIds(r)
    ensures forall i :: 0 <= i < |r| ==> r[i] in users
    ensures forall i :: 0 <= i < |users| && users[i].userId != userId ==> users[i] in r
  {
    Where(users, Not(HasUser(userId)))
  }

  /**
   * `AddUsers`: the entries added one by one, in order, until one has a key already present; the
   * entries before it stay added.
   */
  function AddedInOrder(users: seq<Entry>, entries: seq<Entry>): (r: Batch)
    ensures r.added <= |entries|
    ensures r.users == users + entries[..r.added]
    ensures r.thrown.None? <==> r.added == |entries|
    ensures r.thrown.Some? ==>
      && r.thrown == Some(DuplicateKey(entries[r.added].userId))
      && entries[r.added].userId in UserIds(r.users)
    ensures UniqueUsers(users) ==> UniqueUsers(r.users)
    decreases |entries|
  {
    if entries == [] then Batch(users, 0, None)
    else
      match UserAdded(users, entries[0].userId, entries[0].connectionId)
      case Err(e) => Batch(users, 0, Some(e))
      case Ok(next) =>
        AppendKeepsUniqueUsers(users, entries[0]);
        var rest := AddedInOrder(next, entries[1..]);
        assert entries[..rest.added + 1] == [entries[0]] + entries[1..][..rest.added];
        rest.(added := rest.added + 1)
  }

  /** A new key appended to the user dictionary keeps its keys unique. */
  lemma AppendKeepsUniqueUsers(users: seq<Entry>, e: Entry)
    requires e.userId !in UserIds(users)
    ensures UniqueUsers(users) ==> UniqueUsers(users + [e])
  {
    var all := users + [e];
    if UniqueUsers(users) {
      forall i, j | 0 <= i < j < |all|
        ensures all[i].userId != all[j].userId
      {
        if j == |users| {
          assert all[i] == users[i];
        }
      }
    }
  }

  /** `RemoveUsers`: every listed user's entry is gone, the others stay in order. */
  function UsersRemoved(users: seq<Entry>, userIds: seq<string>): (r: seq<Entry>)
    ensures forall i :: 0 <= i < |r| ==> r[i] in users && r[i].userId !in userIds
    ensures forall i :: 0 <= i < |users| && users[i].userId !in userIds ==> users[i] in r
  {
    Where(users, Not(Listed(userIds)))
  }

  // ---------------------------------------------------------------------------------------------
  // `_groupUsers` after a change.

  /**
   * `_groupUsers[name] = members`: the group's entry replaced in place, or appended when there is
   * none; no other group changes.
   */
  function WithMembers(groups: seq<Group>, name: string, members: set<string>): (r: seq<Group>)
    ensures Members(r, name) == Some(members)
    ensures GroupNames(r) == GroupNames(groups) + {name}
    ensures forall other :: other != name ==> Members(r, other) == Members(groups, other)
    ensures UniqueNames(groups) ==> UniqueNames(r)
  {
    var i := FirstIndex(groups, Named(name));
    if i < |groups| then
      ReplacedGroup(groups, i, Group(name, members));
      groups[i := Group(name, members)]
    else
      AppendedGroup(groups, Group(name, members));
      groups + [Group(name, members)]
  }

  /** Replacing the first group of a name by another group of that name. */
  lemma ReplacedGroup(groups: seq<Group>, i: nat, g: Group)
    requires i == FirstIndex(groups, Named(g.name)) && i < |groups|
    ensures var r := groups[i := g];
      && Members(r, g.name) == Some(g.members)
      && GroupNames(r) == GroupNames(groups)
      && (forall other :: other != g.name ==> Members(r, other) == Members(groups, other))
      && (UniqueNames(groups) ==> UniqueNames(r))
  {
    FirstIndexAgree(groups[i := g], groups, Named(g.name));
    ReplacedOthers(groups, i, g);
    ReplacedNames(groups, i, g);
  }

  lemma ReplacedOthers(groups: seq<Group>, i: nat, g: Group)
    requires i < |groups| && groups[i].name == g.name
    ensures forall other :: other != g.name ==> Members(groups[i := g], other) == Members(groups, other)
  {
    forall other | other != g.name
      ensures Members(groups[i := g], other) == Members(groups, other)
    {
      FirstIndexAgree(groups[i := g], groups, Named(other));
    }
  }

  lemma ReplacedNames(groups: seq<Group>, i: nat, g: Group)
    requires i < |groups| && groups[i].name == g.name
    ensures GroupNames(groups[i := g]) == GroupNames(groups)
    ensures UniqueNames(groups) ==> UniqueNames(groups[i := g])
  {
    var r := groups[i := g];
    forall k | k in GroupNames(groups)
      ensures k in GroupNames(r)
    {
      var j :| 0 <= j < |groups| && groups[j].name == k;
      assert r[j].name == k;
    }
  }

  /** Appending a group whose name is not there yet. */
  lemma AppendedGroup(groups: seq<Group>, g: Group)
    requires FirstIndex(groups, Named(g.name)) == |groups|
    ensures var r := groups + [g];
      && Members(r, g.name) == Some(g.members)
      && GroupNames(r) == GroupNames(groups) + {g.name}
      && (forall other :: other != g.name ==> Members(r, other) == Members(groups, other))
      && (UniqueNames(groups) ==> UniqueNames(r))
  {
    FirstIndexAppend(groups, [g], Named(g.name));
    AppendedOthers(groups, g);
    AppendedNames(groups, g);
  }

  lemma AppendedOthers(groups: seq<Group>, g: Group)
    ensures forall other :: other != g.name ==> Members(groups + [g], other) == Members(groups, other)
  {
    var r := groups + [g];
    forall other | other != g.name
      ensures Members(r, other) == Members(groups, other)
    {
      FirstIndexAppend(groups, [g], Named(other));
      var y := FirstIndex(groups, Named(other));
      if y < |groups| {
        assert r[y] == groups[y];
      }
    }
  }

  lemma AppendedNames(groups: seq<Group>, g: Group)
    requires FirstIndex(groups, Named(g.name)) == |groups|
    ensures GroupNames(groups + [g]) == GroupNames(groups) + {g.name}
    ensures UniqueNames(groups) ==> UniqueNames(groups + [g])
  {
    var r := groups + [g];
    assert r[|groups|].name == g.name;
    forall k | k in GroupNames(groups)
      ensures k in GroupNames(r)
    {
      var j :| 0 <= j < |groups| && groups[j].name == k;
      assert r[j].name == k;
    }
    forall j | 0 <= j < |groups|
      ensures groups[j].name != g.name
    {
      assert !Named(g.name)(groups[j]);
    }
  }

  /** Setting a group's members twice: the second set is the one kept, in the same place. */
  lemma WithMembersTwice(groups: seq<Group>, name: string, first: set<string>, second: set<string>)
    ensures WithMembers(WithMembers(groups, name, first), name, second) == WithMembers(groups, name, second)
  {
    var once := WithMembers(groups, name, first);
    var i := FirstIndex(groups, Named(name));
    if i < |groups| {
      StillFirstAfterReplace(groups, i, Group(name, first));
      assert once[i := Group(name, second)] == groups[i := Group(name, second)];
    } else {
      StillFirstAfterAppend(groups, Group(name, first));
      assert once[|groups| := Group(name, second)] == groups + [Group(name, second)];
    }
  }

  lemma StillFirstAfterReplace(groups: seq<Group>, i: nat, g: Group)
    requires i == FirstIndex(groups, Named(g.name)) && i < |groups|
    ensures FirstIndex(groups[i := g], Named(g.name)) == i
  {
    FirstIndexAgree(groups[i := g], groups, Named(g.name));
  }

  lemma StillFirstAfterAppend(groups: seq<Group>, g: Group)
    requires FirstIndex(groups, Named(g.name)) == |groups|
    ensures FirstIndex(groups + [g], Named(g.name)) == |groups|
  {
    FirstIndexAppend(groups, [g], Named(g.name));
  }

  /**
   * `AddUserToGroup`/`AddUsersToGroup` as written: the indexer is read before the `null` check,
   * so an absent group throws `KeyNotFoundException`; an existing group gains the users. No group
   * name is ever added.
   */
  function Joined(groups: seq<Group>, name: string, userIds: set<string>): (r: Result<seq<Group>, StorageError>)
    ensures r.Err? <==> name !in GroupNames(groups)
    ensures r.Err? ==> r.error == KeyNotFound(name)
    ensures r.Ok? ==> && GroupNames(r.value) == GroupNames(groups)
                      && Members(r.value, name) == Some(Members(groups, name).value + userIds)
                      && forall other :: other != name ==> Members(r.value, other) == Members(groups, other)
  {
    match Members(groups, name)
    case None => Err(KeyNotFound(name))
    case Some(members) => Ok(WithMembers(groups, name, members + userIds))
  }

  /**
   * `RemoveUserFromGroup`/`RemoveUsersFromGroup` as written: an absent group throws
   * `KeyNotFoundException`; an existing group loses exactly those users.
   */
  function Left(groups: seq<Group>, name: string, userIds: set<string>): (r: Result<seq<Group>, StorageError>)
    ensures r.Err? <==> name !in GroupNames(groups)
    ensures r.Err? ==> r.error == KeyNotFound(name)
    ensures r.Ok? ==> && GroupNames(r.value) == GroupNames(groups)
                      && Members(r.value, name) == Some(Members(groups, name).value - userIds)
                      && forall other :: other != name ==> Members(r.value, other) == Members(groups, other)
  {
    match Members(groups, name)
    case None => Err(KeyNotFound(name))
    case Some(members) => Ok(WithMembers(groups, name, members - userIds))
  }

  /** Adding the same users to a group again changes nothing: membership is a set. */
  lemma JoinIsIdempotent(groups: seq<Group>, name: string, userIds: set<string>)
    ensures Joined(groups, name, userIds).Ok? ==>
      Joined(Joined(groups, name, userIds).value, name, userIds) == Joined(groups, name, userIds)
  {
    if Joined(groups, name, userIds).Ok? {
      var members := Members(groups, name).value;
      assert members + userIds + userIds == members + userIds;
      WithMembersTwice(groups, name, members + userIds, members + userIds + userIds);
    }
  }

  /** Removing the same users from a group again changes nothing. */
  lemma LeaveIsIdempotent(groups: seq<Group>, name: string, userIds: set<string>)
    ensures Left(groups, name, userIds).Ok? ==>
      Left(Left(groups, name, userIds).value, name, userIds) == Left(groups, name, userIds)
  {
    if Left(groups, name, userIds).Ok? {
      var members := Members(groups, name).value;
      assert members - userIds - userIds == members - userIds;
      WithMembersTwice(groups, name, members - userIds, members - userIds - userIds);
    }
  }

  /**
   * The registry starts with no group and no operation adds a group name, so with the code as
   * written every group operation throws and every group lookup comes back empty.
   */
  lemma AsWrittenNoGroupEverExists(users: seq<Entry>, groups: seq<Group>, name: string, userIds: set<string>, userId: string)
    requires groups == []
    ensures Joined(groups, name, userIds) == Err(KeyNotFound(name))
    ensures Left(groups, name, userIds) == Err(KeyNotFound(name))
    ensures ConnectionIdsByGroupName(users, groups, name) == []
    ensures GroupNameByUserId(users, groups, userId) == None
  {
  }

  /** What `AddUserToGroup`/`AddUsersToGroup` evidently mean to do: create the group when it is absent. */
  function JoinedCorrected(groups: seq<Group>, name: string, userIds: set<string>): (r: seq<Group>)
    ensures Members(groups, name).None? ==> Members(r, name) == Some(userIds)
    ensures Members(groups, name).Some? ==> Members(r, name) == Some(Members(groups, name).value + userIds)
    ensures GroupNames(r) == GroupNames(groups) + {name}
    ensures forall other :: other != name ==> Members(r, other) == Members(groups, other)
  {
    match Members(groups, name)
    case None => WithMembers(groups, name, userIds)
    case Some(members) => WithMembers(groups, name, members + userIds)
  }

  /** What `RemoveUserFromGroup`/`RemoveUsersFromGroup` evidently mean to do: nothing for an absent group. */
  function LeftCorrected(groups: seq<Group>, name: string, userIds: set<string>): (r: seq<Group>)
    ensures Members(groups, name).None? ==> r == groups
    ensures Members(groups, name).Some? ==> Members(r, name) == Some(Members(groups, name).value - userIds)
    ensures GroupNames(r) == GroupNames(groups)
    ensures forall other :: other != name ==> Members(r, other) == Members(groups, other)
  {
    match Members(groups, name)
    case None => groups
    case Some(members) => WithMembers(groups, name, members - userIds)
  }

  /** With the correction, a registered user added to a group is then found in a group. */
  lemma CorrectedJoinThenFind(users: seq<Entry>, groups: seq<Group>, name: string, userId: string)
    requires userId in UserIds(users)
    ensures GroupNameByUserId(users, JoinedCorrected(groups, name, {userId}), userId).Some?
    ensures userId in Members(JoinedCorrected(groups, name, {userId}), name).value
  {
    var after := JoinedCorrected(groups, name, {userId});
    var members := Members(after, name).value;
    var i :| 0 <= i < |after| && after[i] == Group(name, members);
    assert userId in after[i].members;
  }

  // ---------------------------------------------------------------------------------------------
  // Lemmas about `_users`.

  lemma {:induction false} WhereKeepsUniqueUsers(users: seq<Entry>, p: Entry -> bool)
    requires UniqueUsers(users)
    ensures UniqueUsers(Where(users, p))
  {
    if users != [] {
      WhereKeepsUniqueUsers(users[1..], p);
      var rest := Where(users[1..], p);
      if p(users[0]) {
        var all := [users[0]] + rest;
        forall i, j | 0 <= i < j < |all|
          ensures all[i].userId != all[j].userId
        {
          if i == 0 {
            assert all[j] == rest[j - 1] && rest[j - 1] in users[1..];
          }
        }
      }
    }
  }

  /**
   * `AddUser` of a new user: the user's connection is then found, every other user keeps its
   * connection, and user ids stay unique.
   */
  lemma AddUserThenLookup(users: seq<Entry>, userId: string, connectionId: string)
    requires UniqueUsers(users) && userId !in UserIds(users)
    ensures var after := UserAdded(users, userId, connectionId).value;
      && UniqueUsers(after)
      && ConnectionIdByUserId(after, userId) == Some(connectionId)
      && forall other :: other != userId ==> ConnectionIdByUserId(after, other) == ConnectionIdByUserId(users, other)
  {
    var after := users + [Entry(userId, connectionId)];
    assert UniqueUsers(after) by {
      forall i, j | 0 <= i < j < |after|
        ensures after[i].userId != after[j].userId
      {
        if j == |users| {
          assert users[i].userId in UserIds(users);
        }
      }
    }
    FindsStoredUser(after, |users|);
    forall other | other != userId
      ensures ConnectionIdByUserId(after, other) == ConnectionIdByUserId(users, other)
    {
      if other in UserIds(users) {
        var i :| 0 <= i < |users| && users[i].userId == other;
        FindsStoredUser(users, i);
        assert after[i] == users[i];
        FindsStoredUser(after, i);
      }
    }
  }

  /**
   * `RemoveUser`: the user is no longer found, every other user keeps its connection, and
   * removing a user that is not registered changes nothing.
   */
  lemma RemoveUserThenLookup(users: seq<Entry>, userId: string)
    requires UniqueUsers(users)
    ensures var after := UserRemoved(users, userId);
      && UniqueUsers(after)
      && ConnectionIdByUserId(after, userId) == None
      && (forall other :: other != userId ==> ConnectionIdByUserId(after, other) == ConnectionIdByUserId(users, other))
      && (userId !in UserIds(users) ==> after == users)
  {
    var after := UserRemoved(users, userId);
    WhereKeepsUniqueUsers(users, Not(HasUser(userId)));
    forall other | other != userId
      ensures ConnectionIdByUserId(after, other) == ConnectionIdByUserId(users, other)
    {
      if other in UserIds(users) {
        var i :| 0 <= i < |users| && users[i].userId == other;
        FindsStoredUser(users, i);
        var j :| 0 <= j < |after| && after[j] == users[i];
        FindsStoredUser(after, j);
      }
    }
    if userId !in UserIds(users) {
      WhereAll(users, Not(HasUser(userId)));
    }
  }

  /** `RemoveUsers`: no listed user is found any more, every other user keeps its connection. */
  lemma RemoveUsersThenLookup(users: seq<Entry>, userIds: seq<string>)
    requires UniqueUsers(users)
    ensures var after := UsersRemoved(users, userIds);
      && UniqueUsers(after)
      && (forall i :: 0 <= i < |userIds| ==> ConnectionIdByUserId(after, userIds[i]) == None)
      && (forall other :: other !in userIds ==> ConnectionIdByUserId(after, other) == ConnectionIdByUserId(users, other))
  {
    var after := UsersRemoved(users, userIds);
    WhereKeepsUniqueUsers(users, Not(Listed(userIds)));
    forall other | other !in userIds
      ensures ConnectionIdByUserId(after, other) == ConnectionIdByUserId(users, other)
    {
      if other in UserIds(users) {
        var i :| 0 <= i < |users| && users[i].userId == other;
        FindsStoredUser(users, i);
        var j :| 0 <= j < |after| && after[j] == users[i];
        FindsStoredUser(after, j);
      }
    }
  }

  /** Removing users one at a time is removing them all at once. */
  lemma RemovedOneMore(users: seq<Entry>, userIds: seq<string>, i: nat)
    requires i < |userIds|
    ensures UserRemoved(UsersRemoved(users, userIds[..i]), userIds[i]) == UsersRemoved(users, userIds[..i + 1])
  {
    WhereWhere(users, Not(Listed(userIds[..i])), Not(HasUser(userIds[i])));
    assert userIds[..i + 1] == userIds[..i] + [userIds[i]];
    WhereAgree(users, Both(Not(Listed(userIds[..i])), Not(HasUser(userIds[i]))), Not(Listed(userIds[..i + 1])));
  }

  /**
   * Removal keeps the order of the entries that stay: removing from two runs of entries is
   * removing from each run and joining the results. So an entry that enumerated before another
   * still does afterwards, and the first-match lookups see the survivors in their old order.
   */
  lemma UserRemovedKeepsOrder(a: seq<Entry>, b: seq<Entry>, userId: string)
    ensures UserRemoved(a + b, userId) == UserRemoved(a, userId) + UserRemoved(b, userId)
  {
    WhereAppend(a, b, Not(HasUser(userId)));
  }

  lemma UsersRemovedKeepsOrder(a: seq<Entry>, b: seq<Entry>, userIds: seq<string>)
    ensures UsersRemoved(a + b, userIds) == UsersRemoved(a, userIds) + UsersRemoved(b, userIds)
  {
    WhereAppend(a, b, Not(Listed(userIds)));
  }

  // ---------------------------------------------------------------------------------------------
  // The storage object.

  class RealTimeUserStorage {
    /** `_users`: user id to connection id. */
    var users: seq<Entry>
    /** `_groupUsers`: group name to member user ids. */
    var groups: seq<Group>

    ghost predicate Valid()
      reads this
    {
      UniqueUsers(users) && UniqueNames(groups)
    }

    /** Both dictionaries start empty. */
    constructor ()
      ensures Valid() && users == [] && groups == []
    {
      users, groups := [], [];
    }

    /** `GetUsersMapping`: the user dictionary itself. */
    function GetUsersMapping(): (r: seq<Entry>)
      reads this
      ensures r == users
    {
      users
    }

    function GetGroupNameByConnectionId(connectionId: string): (r: Option<string>)
      reads this
      ensures r == GroupNameByConnectionId(users, groups, connectionId)
    {
      GroupNameByConnectionId(users, groups, connectionId)
    }

    function GetGroupNameByUserId(userId: string): (r: Option<string>)
      reads this
      ensures r == GroupNameByUserId(users, groups, userId)
    {
      GroupNameByUserId(users, groups, userId)
    }

    function GetConnectionIdByUserId(userId: string): (r: Option<string>)
      reads this
      ensures r == ConnectionIdByUserId(users, userId)
    {
      ConnectionIdByUserId(users, userId)
    }

    function GetUserIdByConnectionId(connectionId: string): (r: Option<string>)
      reads this
      ensures r == UserIdByConnectionId(users, connectionId)
    {
      UserIdByConnectionId(users, connectionId)
    }

    function GetConnectionIdsByGroupName(groupName: string): (r: seq<string>)
      reads this
      ensures r == ConnectionIdsByGroupName(users, groups, groupName)
    {
      ConnectionIdsByGroupName(users, groups, groupName)
    }

    /**
     * `GetUserIdsByGroupName`: the members of the group as a list, each once, in the set's
     * enumeration order (which the model leaves open); the empty list for an absent group.
     */
    method GetUserIdsByGroupName(groupName: string) returns (userIds: seq<string>)
      ensures Members(groups, groupName).None? ==> userIds == []
      ensures Members(groups, groupName).Some? ==> Elements(userIds) == Members(groups, groupName).value
      ensures forall i, j :: 0 <= i < j < |userIds| ==> userIds[i] != userIds[j]
    {
      userIds := [];
      var found := Members(groups, groupName);
      if found.None? {
        return;
      }
      var remaining := found.value;
      while remaining != {}
        invariant remaining <= found.value
        invariant forall x :: x in userIds <==> x in found.value && x !in remaining
        invariant forall i, j :: 0 <= i < j < |userIds| ==> userIds[i] != userIds[j]
        decreases |remaining|
      {
        var userId :| userId in remaining;
        userIds := userIds + [userId];
        remaining := remaining - {userId};
      }
    }

    /** `AddUserToGroup`, as written: `KeyNotFoundException` for an absent group. */
    method AddUserToGroup(groupName: string, userId: string) returns (thrown: Option<StorageError>)
      requires Valid()
      modifies this
      ensures Valid() && users == old(users)
      ensures match Joined(old(groups), groupName, {userId})
        case Err(e) => thrown == Some(e) && groups == old(groups)
        case Ok(next) => thrown == None && groups == next
    {
      var found := Members(groups, groupName);
      if found.None? {
        return Some(KeyNotFound(groupName));
      }
      groups := WithMembers(groups, groupName, found.value + {userId});
      thrown := None;
    }

    /** `RemoveUserFromGroup`, as written: `KeyNotFoundException` for an absent group. */
    method RemoveUserFromGroup(groupName: string, userId: string) returns (thrown: Option<StorageError>)
      requires Valid()
      modifies this
      ensures Valid() && users == old(users)
      ensures match Left(old(groups), groupName, {userId})
        case Err(e) => thrown == Some(e) && groups == old(groups)
        case Ok(next) => thrown == None && groups == next
    {
      var found := Members(groups, groupName);
      if found.None? {
        return Some(KeyNotFound(groupName));
      }
      groups := WithMembers(groups, groupName, found.value - {userId});
      thrown := None;
    }

    /** `AddUsersToGroup`, as written: the users added one by one to an existing group. */
    method AddUsersToGroup(groupName: string, userIds: seq<string>) returns (thrown: Option<StorageError>)
      requires Valid()
      modifies this
      ensures Valid() && users == old(users)
      ensures match Joined(old(groups), groupName, Elements(userIds))
        case Err(e) => thrown == Some(e) && groups == old(groups)
        case Ok(next) => thrown == None && groups == next
    {
      var found := Members(groups, groupName);
      if found.None? {
        return Some(KeyNotFound(groupName));
      }
      // The group's `HashSet`, changed in place one user at a time.
      var members := found.value;
      for i := 0 to |userIds|
        invariant members == found.value + Elements(userIds[..i])
      {
        assert Elements(userIds[..i + 1]) == Elements(userIds[..i]) + {userIds[i]} by {
          assert userIds[..i + 1] == userIds[..i] + [userIds[i]];
        }
        members := members + {userIds[i]};
      }
      assert userIds[..|userIds|] == userIds;
      groups := WithMembers(groups, groupName, members);
      thrown := None;
    }

    /** `RemoveUsersFromGroup`, as written: the users removed one by one from an existing group. */
    method RemoveUsersFromGroup(groupName: string, userIds: seq<string>) returns (thrown: Option<StorageError>)
      requires Valid()
      modifies this
      ensures Valid() && users == old(users)
      ensures match Left(old(groups), groupName, Elements(userIds))
        case Err(e) => thrown == Some(e) && groups == old(groups)
        case Ok(next) => thrown == None && groups == next
    {
      var found := Members(groups, groupName);
      if found.None? {
        return Some(KeyNotFound(groupName));
      }
      // The group's `HashSet`, changed in place one user at a time.
      var members := found.value;
      for i := 0 to |userIds|
        invariant members == found.value - Elements(userIds[..i])
      {
        assert Elements(userIds[..i + 1]) == Elements(userIds[..i]) + {userIds[i]} by {
          assert userIds[..i + 1] == userIds[..i] + [userIds[i]];
        }
        members := members - {userIds[i]};
      }
      assert userIds[..|userIds|] == userIds;
      groups := WithMembers(groups, groupName, members);
      thrown := None;
    }

    /** `AddUser`: `ArgumentException` and no change when the user is already registered. */
    method AddUser(userId: string, connectionId: string) returns (thrown: Option<StorageError>)
      requires Valid()
      modifies this
      ensures Valid() && groups == old(groups)
      ensures match UserAdded(old(users), userId, connectionId)
        case Err(e) => thrown == Some(e) && users == old(users)
        case Ok(next) => thrown == None && users == next
    {
      match UserAdded(users, userId, connectionId)
      case Err(e) =>
        thrown := Some(e);
      case Ok(next) =>
        AddUserThenLookup(users, userId, connectionId);
        users := next;
        thrown := None;
    }

    /** `RemoveUser`: a no-op for a user that is not registered. */
    method RemoveUser(userId: string)
      requires Valid()
      modifies this
      ensures Valid() && groups == old(groups)
      ensures users == UserRemoved(old(users), userId)
    {
      RemoveUserThenLookup(users, userId);
      users := UserRemoved(users, userId);
    }

    /**
     * `AddUsers`: the entries of the given dictionary (unique keys) added one by one; the first
     * key already registered throws and the entries added before it stay.
     */
    method AddUsers(entries: seq<Entry>) returns (thrown: Option<StorageError>)
      requires Valid() && UniqueUsers(entries)
      modifies this
      ensures Valid() && groups == old(groups)
      ensures users == AddedInOrder(old(users), entries).users
      ensures thrown == AddedInOrder(old(users), entries).thrown
    {
      var i := 0;
      while i < |entries|
        invariant i <= |entries|
        invariant Valid() && groups == old(groups)
        invariant AddedInOrder(old(users), entries).users == AddedInOrder(users, entries[i..]).users
        invariant AddedInOrder(old(users), entries).thrown == AddedInOrder(users, entries[i..]).thrown
      {
        assert entries[i..][0] == entries[i] && entries[i..][1..] == entries[i + 1..];
        var added := UserAdded(users, entries[i].userId, entries[i].connectionId);
        if added.Err? {
          return Some(added.error);
        }
        AddUserThenLookup(users, entries[i].userId, entries[i].connectionId);
        users := added.value;
        i := i + 1;
      }
      thrown := None;
    }

    /** `RemoveUsers`: the listed users removed one by one. */
    method RemoveUsers(userIds: seq<string>)
      requires Valid()
      modifies this
      ensures Valid() && groups == old(groups)
      ensures users == UsersRemoved(old(users), userIds)
    {
      WhereAll(old(users), Not(Listed(userIds[..0])));
      for i := 0 to |userIds|
        invariant Valid() && groups == old(groups)
        invariant users == UsersRemoved(old(users), userIds[..i])
      {
        RemovedOneMore(old(users), userIds, i);
        RemoveUserThenLookup(users, userIds[i]);
        users := UserRemoved(users, userIds[i]);
      }
      assert userIds[..|userIds|] == userIds;
    }
  }
}
