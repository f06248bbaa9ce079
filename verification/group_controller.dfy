/**
 Group management of src/controllers/groupController.js: creation with the
 creator as admin, the role gate of every mutation, member addition by
 email, metadata update, member removal (including leaving), deletion,
 role change, and the paginated listing with recomputed spending.

 The group collection is a map from id to document; the user collection is
 the one of the user data-access layer.
 */
module GroupController {
  import opened Results
  import opened Paging
  import opened GroupModel
  import UserModel
  import UserDao

  type GroupStore = map<Id, Group>

  /** The inline test of the member-management handlers: the requester is an admin or a manager. */
  function IsAdminOrManager(g: Group, requester: Id): bool
  {
    match FindMember(g.members, requester)
    case None => false
    case Some(m) => m.role == Admin || m.role == Manager
  }

  /** The inline test of the delete and role-change handlers: the requester is an admin. */
  function IsAdmin(g: Group, requester: Id): bool
  {
    match FindMember(g.members, requester)
    case None => false
    case Some(m) => m.role == Admin
  }

  /** The controllers' inline role tests are the matrix. */
  lemma InlineGatesFollowMatrix(g: Group, requester: Id)
    ensures IsAdminOrManager(g, requester) <==> Allowed(g, requester, AddMembersAction)
    ensures IsAdminOrManager(g, requester) <==> Allowed(g, requester, UpdateAction)
    ensures IsAdminOrManager(g, requester) <==> Allowed(g, requester, RemoveOtherAction)
    ensures IsAdmin(g, requester) <==> Allowed(g, requester, DeleteAction)
    ensures IsAdmin(g, requester) <==> Allowed(g, requester, ChangeRoleAction)
  {
  }

  /** No mutation writes the stored `totalSpent` of a group that survives it. */
  predicate KeepsTotals(before: GroupStore, after: GroupStore)
  {
    forall id :: id in after && id in before ==> after[id].totalSpent == before[id].totalSpent
  }

  /** The store after `groupId` is replaced by `g`: no other group changes. */
  predicate OnlyGroupChanged(before: GroupStore, after: GroupStore, groupId: Id, g: Group)
  {
    after.Keys == before.Keys && groupId in after && after[groupId] == g
    && forall id :: id in before && id != groupId ==> after[id] == before[id]
  }

  /**
   `create`: a new group whose only member is its creator, as admin. The
   name is required by the schema, so an empty one fails on save.
   */
  function Create(groups: GroupStore, newId: Id, name: string, description: string, thumbnail: string, creator: Id)
    : (r: Result<(GroupStore, Group)>)
    ensures name == "" ==> r == Err(Failure(500, "Error creating group"))
    // a named group with a creator under a fresh id is always created
    ensures r.Ok? <==> name != "" && creator != "" && newId !in groups
    ensures r.Err? ==> r.failure == Failure(500, "Error creating group")
    ensures r.Ok? ==> var (groups', g) := r.value;
                      && g.members == [Membership(creator, Admin)]
                      && g.creator == creator && g.name == name && g.id == newId
                      && g.currency == DefaultCurrency && g.totalSpent == 0
                      && newId !in groups && groups' == groups[newId := g]
  {
    var g := NewGroup(newId, name, description, thumbnail, creator).(members := [Membership(creator, Admin)]);
    if !SchemaValid(g) || newId in groups then Err(Failure(500, "Error creating group"))
    else Ok((groups[newId := g], g))
  }

  /** The creator of a new group passes every gate of it. */
  lemma CreatorHoldsEveryRight(groups: GroupStore, newId: Id, name: string, description: string, thumbnail: string,
                               creator: Id, action: GroupAction)
    requires Create(groups, newId, name, description, thumbnail, creator).Ok?
    ensures Allowed(Create(groups, newId, name, description, thumbnail, creator).value.1, creator, action)
  {
  }

  /** `getGroupDetails`. */
  function GetGroupDetails(groups: GroupStore, groupId: Id): (r: Result<Group>)
    ensures r.Ok? <==> groupId in groups
    ensures r.Ok? ==> r.value == groups[groupId]
    ensures r.Err? ==> r.failure == Failure(404, "Group not found")
  {
    if groupId in groups then Ok(groups[groupId]) else Err(Failure(404, "Group not found"))
  }

  /**
   Adds `user` with the default role when not already a member (the
   directory's `addMember`, whose code is not part of this model).
   */
  function AddMember(g: Group, user: Id): (g': Group)
    ensures IsMember(g', user)
    ensures Extends(g, g')
    ensures IsMember(g, user) ==> g' == g
    // a newcomer gets exactly one entry, at the end, with the default role
    ensures !IsMember(g, user) ==> g'.members == g.members + [Membership(user, DefaultRole)]
  {
    if IsMember(g, user) then g
    else
      var g' := g.(members := g.members + [Membership(user, DefaultRole)]);
      assert g'.members[|g.members|].user == user;
      g'
  }

  /** The emails of registered accounts, in input order. */
  function Registered(emails: seq<string>, users: UserDao.UserStore): seq<string>
  {
    if |emails| == 0 then []
    else
      var last := emails[|emails| - 1];
      Registered(emails[..|emails| - 1], users)
        + (if UserDao.FindByEmail(users, last).Some? then [last] else [])
  }

  /** The emails no account has, in input order. */
  function Unregistered(emails: seq<string>, users: UserDao.UserStore): seq<string>
  {
    if |emails| == 0 then []
    else
      var last := emails[|emails| - 1];
      Unregistered(emails[..|emails| - 1], users)
        + (if UserDao.FindByEmail(users, last).None? then [last] else [])
  }

  /** Each input email lands in exactly one of the two lists. */
  lemma {:induction false} EmailsArePartitioned(emails: seq<string>, users: UserDao.UserStore)
    ensures multiset(Registered(emails, users)) + multiset(Unregistered(emails, users)) == multiset(emails)
    ensures forall e :: e in Registered(emails, users) ==> e in emails && UserDao.FindByEmail(users, e).Some?
    ensures forall e :: e in Unregistered(emails, users) ==> e in emails && UserDao.FindByEmail(users, e).None?
  {
    if |emails| > 0 {
      var init := emails[..|emails| - 1];
      EmailsArePartitioned(init, users);
      assert emails == init + [emails[|emails| - 1]];
    }
  }

  /** `after` is `before` with members appended and nothing else changed. */
  predicate Extends(before: Group, after: Group)
  {
    && after == before.(members := after.members)
    && |before.members| <= |after.members|
    && after.members[..|before.members|] == before.members
  }

  lemma ExtendsTransitive(a: Group, b: Group, c: Group)
    requires Extends(a, b) && Extends(b, c)
    ensures Extends(a, c)
  {
    assert c.members[..|a.members|] == c.members[..|b.members|][..|a.members|];
  }

  lemma ExtendsKeepsMembers(a: Group, b: Group, user: Id)
    requires Extends(a, b) && IsMember(a, user)
    ensures IsMember(b, user)
  {
    var k :| 0 <= k < |a.members| && a.members[k].user == user;
    assert b.members[k] == a.members[k];
  }

  /** Every listed email of a registered account is a member of `g`. */
  predicate AllRegisteredJoined(g: Group, emails: seq<string>, users: UserDao.UserStore)
  {
    forall e :: e in emails && UserDao.FindByEmail(users, e).Some? ==> IsMember(g, UserDao.FindByEmail(users, e).value.id)
  }

  lemma JoiningOneMore(before: Group, after: Group, emails: seq<string>, e: string, users: UserDao.UserStore)
    requires AllRegisteredJoined(before, emails, users) && Extends(before, after)
    requires UserDao.FindByEmail(users, e).Some? ==> IsMember(after, UserDao.FindByEmail(users, e).value.id)
    ensures AllRegisteredJoined(after, emails + [e], users)
  {
    forall x | x in emails + [e] && UserDao.FindByEmail(users, x).Some?
      ensures IsMember(after, UserDao.FindByEmail(users, x).value.id)
    {
      if x in emails {
        ExtendsKeepsMembers(before, after, UserDao.FindByEmail(users, x).value.id);
      }
    }
  }

  /** `id` is the account of one of the registered `emails`. */
  predicate IsRegisteredIn(id: Id, emails: seq<string>, users: UserDao.UserStore)
  {
    exists e :: e in emails && UserDao.FindByEmail(users, e).Some? && UserDao.FindByEmail(users, e).value.id == id
  }

  /** Every entry `after` appends to `before` is an account of `emails`, with the default role. */
  predicate OnlyRegisteredJoined(before: Group, after: Group, emails: seq<string>, users: UserDao.UserStore)
  {
    forall k :: |before.members| <= k < |after.members| ==>
      after.members[k].role == DefaultRole && IsRegisteredIn(after.members[k].user, emails, users)
  }

  /** No entry `after` appends repeats a user with an earlier entry, old or new. */
  predicate NoNewDuplicates(before: Group, after: Group)
  {
    forall j, k :: 0 <= j < k < |after.members| && |before.members| <= k ==>
      after.members[j].user != after.members[k].user
  }

  lemma AdmittingOnce(g0: Group, before: Group, user: Id)
    requires |g0.members| <= |before.members| && NoNewDuplicates(g0, before)
    ensures NoNewDuplicates(g0, AddMember(before, user))
  {
    var after := AddMember(before, user);
    if !IsMember(before, user) {
      forall j, k | 0 <= j < k < |after.members| && |g0.members| <= k
        ensures after.members[j].user != after.members[k].user
      {
        if k == |before.members| {
          assert after.members[j] == before.members[j];
        } else {
          assert after.members[j] == before.members[j] && after.members[k] == before.members[k];
        }
      }
    }
  }

  lemma AdmittingOneMore(g0: Group, before: Group, after: Group, emails: seq<string>, e: string,
                         users: UserDao.UserStore)
    requires |g0.members| <= |before.members| && OnlyRegisteredJoined(g0, before, emails, users)
    requires UserDao.FindByEmail(users, e).Some?
    requires after == AddMember(before, UserDao.FindByEmail(users, e).value.id)
    ensures OnlyRegisteredJoined(g0, after, emails + [e], users)
  {
    forall k | |g0.members| <= k < |after.members|
      ensures after.members[k].role == DefaultRole && IsRegisteredIn(after.members[k].user, emails + [e], users)
    {
      if k < |before.members| {
        assert after.members[k] == before.members[k];
        var x :| x in emails && UserDao.FindByEmail(users, x).Some?
                 && UserDao.FindByEmail(users, x).value.id == before.members[k].user;
        assert x in emails + [e];
      } else {
        assert e in emails + [e];
      }
    }
  }

  lemma RegisteredInMore(g0: Group, g: Group, emails: seq<string>, e: string, users: UserDao.UserStore)
    requires OnlyRegisteredJoined(g0, g, emails, users)
    ensures OnlyRegisteredJoined(g0, g, emails + [e], users)
  {
    forall k | |g0.members| <= k < |g.members|
      ensures IsRegisteredIn(g.members[k].user, emails + [e], users)
    {
      var x :| x in emails && UserDao.FindByEmail(users, x).Some?
               && UserDao.FindByEmail(users, x).value.id == g.members[k].user;
      assert x in emails + [e];
    }
  }

  /**
   The loop of `addMembers`: each email of a registered account joins `g0`
   through `addMember`; the others are collected.
   */
  method JoinAll(g0: Group, es: seq<string>, users: UserDao.UserStore)
    returns (g: Group, added: seq<string>, notFound: seq<string>)
    ensures added == Registered(es, users) && notFound == Unregistered(es, users)
    ensures Extends(g0, g) && AllRegisteredJoined(g, es, users)
    ensures OnlyRegisteredJoined(g0, g, es, users) && NoNewDuplicates(g0, g)
  {
    g := g0;
    added := [];
    notFound := [];
    var i := 0;
    while i < |es|
      invariant 0 <= i <= |es|
      invariant added == Registered(es[..i], users)
      invariant notFound == Unregistered(es[..i], users)
      invariant Extends(g0, g)
      invariant AllRegisteredJoined(g, es[..i], users)
      invariant OnlyRegisteredJoined(g0, g, es[..i], users)
      invariant NoNewDuplicates(g0, g)
    {
      assert es[..i + 1] == es[..i] + [es[i]];
      assert es[..i + 1][..i] == es[..i];
      var found := UserDao.FindByEmail(users, es[i]);
      var before := g;
      if found.Some? {
        g := AddMember(g, found.value.id);
        AdmittingOnce(g0, before, found.value.id);
        added := added + [found.value.email];
        AdmittingOneMore(g0, before, g, es[..i], es[i], users);
      } else {
        notFound := notFound + [es[i]];
        RegisteredInMore(g0, g, es[..i], es[i], users);
      }
      ExtendsTransitive(g0, before, g);
      JoiningOneMore(before, g, es[..i], es[i], users);
      i := i + 1;
    }
    assert es[..|es|] == es;
  }

  /** The reply of `addMembers` and the store it leaves behind. */
  datatype AddMembersReport = AddMembersReport(groups: GroupStore, added: seq<string>, notFound: seq<string>)

  /**
   `addMembers`: `emails` is `None` when absent or not an array. Each email
   of a registered account joins the group; the others are reported back.
   */
  method AddMembers(groups: GroupStore, users: UserDao.UserStore, groupId: Id, emails: Option<seq<string>>,
                    requester: Id)
    returns (r: Result<AddMembersReport>)
    ensures emails.None? ==> r == Err(Failure(400, "Please provide a list of emails"))
    ensures emails.Some? && groupId !in groups ==> r == Err(Failure(404, "Group not found"))
    ensures emails.Some? && groupId in groups && !Allowed(groups[groupId], requester, AddMembersAction)
            ==> r == Err(Failure(403, "Only group admins can add members"))
    ensures r.Ok? <==> emails.Some? && groupId in groups && Allowed(groups[groupId], requester, AddMembersAction)
    // every email is reported in exactly one list, in input order
    ensures r.Ok? ==> r.value.added == Registered(emails.value, users)
                      && r.value.notFound == Unregistered(emails.value, users)
    // every registered account is now a member; nobody lost membership; nothing else changed
    ensures r.Ok? ==> && groupId in r.value.groups
                      && OnlyGroupChanged(groups, r.value.groups, groupId, r.value.groups[groupId])
                      && Extends(groups[groupId], r.value.groups[groupId])
                      && AllRegisteredJoined(r.value.groups[groupId], emails.value, users)
    // and nobody else joined: each new entry is a listed account, with the default role
    ensures r.Ok? ==> groupId in r.value.groups
                      && OnlyRegisteredJoined(groups[groupId], r.value.groups[groupId], emails.value, users)
    // an account already in the group, or listed twice, gets no second entry
    ensures r.Ok? ==> groupId in r.value.groups && NoNewDuplicates(groups[groupId], r.value.groups[groupId])
    ensures r.Ok? ==> KeepsTotals(groups, r.value.groups)
  {
    if emails.None? {
      return Err(Failure(400, "Please provide a list of emails"));
    }
    if groupId !in groups {
      return Err(Failure(404, "Group not found"));
    }
    InlineGatesFollowMatrix(groups[groupId], requester);
    if !IsAdminOrManager(groups[groupId], requester) {
      return Err(Failure(403, "Only group admins can add members"));
    }
    var g, added, notFound := JoinAll(groups[groupId], emails.value, users);
    r := Ok(AddMembersReport(groups[groupId := g], added, notFound));
  }

  /** `name || group.name`: an empty replacement keeps the old value. */
  function KeepIfEmpty(replacement: string, current: string): (v: string)
    ensures replacement != "" ==> v == replacement
    ensures replacement == "" ==> v == current
  {
    if replacement != "" then replacement else current
  }

  /** `update`: metadata edits by admins and managers; empty fields keep their value. */
  function Update(groups: GroupStore, groupId: Id, name: string, description: string, thumbnail: string,
                  requester: Id): (r: Result<(GroupStore, Group)>)
    ensures groupId == "" ==> r == Err(Failure(400, "Group ID is required"))
    ensures groupId != "" && groupId !in groups ==> r == Err(Failure(404, "Group not found"))
    ensures groupId != "" && groupId in groups && !Allowed(groups[groupId], requester, UpdateAction)
            ==> r == Err(Failure(403, "Access denied. Admins only."))
    ensures r.Ok? ==> groupId in groups && Allowed(groups[groupId], requester, UpdateAction)
    // an allowed update of a stored (schema-valid) group always succeeds
    ensures groupId != "" && groupId in groups && Allowed(groups[groupId], requester, UpdateAction)
            && SchemaValid(groups[groupId])
            ==> r.Ok?
    ensures r.Err? && r.failure.status == 500 ==> r.failure.message == "Error updating group"
    // only name, description and thumbnail change, and only to non-empty values
    ensures r.Ok? ==> var g := groups[groupId];
                      var g' := r.value.1;
                      && OnlyGroupChanged(groups, r.value.0, groupId, g')
                      && g' == g.(name := g'.name, description := g'.description, thumbnail := g'.thumbnail)
                      && (name != "" ==> g'.name == name) && (name == "" ==> g'.name == g.name)
                      && (description != "" ==> g'.description == description)
                      && (description == "" ==> g'.description == g.description)
                      && (thumbnail != "" ==> g'.thumbnail == thumbnail)
                      && (thumbnail == "" ==> g'.thumbnail == g.thumbnail)
  {
    if groupId == "" then Err(Failure(400, "Group ID is required"))
    else if groupId !in groups then Err(Failure(404, "Group not found"))
    else
      var g := groups[groupId];
      InlineGatesFollowMatrix(g, requester);
      if !IsAdminOrManager(g, requester) then Err(Failure(403, "Access denied. Admins only."))
      else
        var g' := g.(name := KeepIfEmpty(name, g.name), description := KeepIfEmpty(description, g.description),
                     thumbnail := KeepIfEmpty(thumbnail, g.thumbnail));
        if !SchemaValid(g') then Err(Failure(500, "Error updating group"))
        else Ok((groups[groupId := g'], g'))
  }

  /** Repeating an accepted update changes nothing more. */
  lemma UpdateIdempotent(groups: GroupStore, groupId: Id, name: string, description: string, thumbnail: string,
                         requester: Id)
    requires Update(groups, groupId, name, description, thumbnail, requester).Ok?
    ensures var (groups', g') := Update(groups, groupId, name, description, thumbnail, requester).value;
            Update(groups', groupId, name, description, thumbnail, requester) == Ok((groups', g'))
  {
    var (groups', g') := Update(groups, groupId, name, description, thumbnail, requester).value;
    assert g'.members == groups[groupId].members;
    assert groups'[groupId := g'] == groups';
  }

  /** The member list without any entry of `user`, order kept. */
  function WithoutUser(members: seq<Membership>, user: Id): (r: seq<Membership>)
    ensures forall i :: 0 <= i < |r| ==> r[i].user != user && r[i] in members
    ensures forall m :: m in members && m.user != user ==> m in r
    ensures |r| <= |members|
  {
    if |members| == 0 then []
    else
      var rest := WithoutUser(members[1..], user);
      if members[0].user == user then rest else [members[0]] + rest
  }

  /**
   `removeMember`: removing someone else needs an admin or manager; anyone
   may remove themselves (even a non-member, which changes nothing).
   */
  function RemoveMember(groups: GroupStore, users: UserDao.UserStore, groupId: Id, email: string, requester: Id)
    : (r: Result<GroupStore>)
    ensures groupId == "" || email == "" ==> r == Err(Failure(400, "Group ID and Email are required"))
    ensures groupId != "" && email != "" && groupId !in groups ==> r == Err(Failure(404, "Group not found"))
    ensures groupId != "" && email != "" && groupId in groups && UserDao.FindByEmail(users, email).None?
            ==> r == Err(Failure(404, "User not found"))
    // allowed exactly for leaving, or for admins and managers
    ensures groupId != "" && email != "" && groupId in groups && UserDao.FindByEmail(users, email).Some? ==>
              (r.Ok? <==> UserDao.FindByEmail(users, email).value.id == requester
                          || Allowed(groups[groupId], requester, RemoveOtherAction))
    ensures r.Err? && r.failure.status == 403 ==> r.failure.message == "Only admins can remove other members."
    // the target is no member afterwards; everyone else keeps their entry
    ensures r.Ok? ==> var target := UserDao.FindByEmail(users, email).value.id;
                      var g := groups[groupId];
                      && groupId in r.value
                      && OnlyGroupChanged(groups, r.value, groupId, r.value[groupId])
                      && r.value[groupId] == g.(members := r.value[groupId].members)
                      && !IsMember(r.value[groupId], target)
                      && (forall m :: m in g.members && m.user != target ==> m in r.value[groupId].members)
                      && (forall m :: m in r.value[groupId].members ==> m in g.members)
  {
    if groupId == "" || email == "" then Err(Failure(400, "Group ID and Email are required"))
    else if groupId !in groups then Err(Failure(404, "Group not found"))
    else
      match UserDao.FindByEmail(users, email)
      case None => Err(Failure(404, "User not found"))
      case Some(target) =>
        var g := groups[groupId];
        InlineGatesFollowMatrix(g, requester);
        if target.id != requester && !IsAdminOrManager(g, requester) then
          Err(Failure(403, "Only admins can remove other members."))
        else
          var g' := g.(members := WithoutUser(g.members, target.id));
          Ok(groups[groupId := g'])
  }

  /** Removing a user who was not on the list leaves it as it was. */
  lemma {:induction false} WithoutAbsentUser(members: seq<Membership>, user: Id)
    requires forall i :: 0 <= i < |members| ==> members[i].user != user
    ensures WithoutUser(members, user) == members
  {
    if |members| > 0 {
      WithoutAbsentUser(members[1..], user);
      assert [members[0]] + members[1..] == members;
    }
  }

  /** Dropping a user from a list with one more entry of theirs at the end drops that entry too. */
  lemma {:induction false} WithoutUserAppended(members: seq<Membership>, m: Membership)
    ensures WithoutUser(members + [m], m.user) == WithoutUser(members, m.user)
  {
    if |members| == 0 {
      assert WithoutUser([m], m.user) == WithoutUser([], m.user);
    } else {
      assert (members + [m])[1..] == members[1..] + [m];
      WithoutUserAppended(members[1..], m);
    }
  }

  /** Removing a member just added (who was not one before) restores the member list. */
  lemma RemoveUndoesAdd(g: Group, user: Id)
    requires !IsMember(g, user)
    ensures WithoutUser(AddMember(g, user).members, user) == g.members
  {
    WithoutUserAppended(g.members, Membership(user, DefaultRole));
    WithoutAbsentUser(g.members, user);
  }

  /** `deleteGroup`: admins only; the group disappears and nothing else changes. */
  function DeleteGroup(groups: GroupStore, groupId: Id, requester: Id): (r: Result<GroupStore>)
    ensures groupId !in groups ==> r == Err(Failure(404, "Group not found"))
    ensures groupId in groups ==> (r.Ok? <==> RoleOf(groups[groupId], requester) == Some(Admin))
    ensures groupId in groups && r.Err? ==> r.failure == Failure(403, "Only Admins can delete the group.")
    ensures r.Ok? ==> r.value.Keys == groups.Keys - {groupId}
                      && forall id :: id in r.value ==> r.value[id] == groups[id]
  {
    if groupId !in groups then Err(Failure(404, "Group not found"))
    else if !IsAdmin(groups[groupId], requester) then Err(Failure(403, "Only Admins can delete the group."))
    else Ok(groups - {groupId})
  }

  /** The creator of a new group may delete it, which restores the store. */
  lemma DeleteUndoesCreate(groups: GroupStore, newId: Id, name: string, description: string, thumbnail: string,
                           creator: Id)
    requires Create(groups, newId, name, description, thumbnail, creator).Ok?
    ensures DeleteGroup(Create(groups, newId, name, description, thumbnail, creator).value.0, newId, creator)
            == Ok(groups)
  {
    var (groups', g) := Create(groups, newId, name, description, thumbnail, creator).value;
    assert groups' - {newId} == groups;
  }

  /** Every entry of `user` gets `role`; the other entries are untouched. */
  function SetRole(members: seq<Membership>, user: Id, role: Role): (r: seq<Membership>)
    ensures |r| == |members|
    ensures forall i :: 0 <= i < |members| ==>
              r[i] == (if members[i].user == user then members[i].(role := role) else members[i])
  {
    seq(|members|, i requires 0 <= i < |members| =>
      if members[i].user == user then members[i].(role := role) else members[i])
  }

  /**
   The directory's `updateMemberRole` (whose code is not part of this
   model): the user's entries take the new role, all others stay.
   */
  function SetMemberRole(g: Group, user: Id, role: Role): (g': Group)
    ensures g' == g.(members := g'.members) && |g'.members| == |g.members|
    ensures forall i :: 0 <= i < |g.members| && g.members[i].user != user ==> g'.members[i] == g.members[i]
    ensures forall i :: 0 <= i < |g.members| && g.members[i].user == user ==> g'.members[i] == g.members[i].(role := role)
    ensures RoleOf(g', user) == if IsMember(g, user) then Some(role) else None
    ensures forall q :: q != user ==> RoleOf(g', q) == RoleOf(g, q)
  {
    var g' := g.(members := SetRole(g.members, user, role));
    FindMemberAfterSetRole(g.members, user, role, user);
    forall q | q != user
      ensures RoleOf(g', q) == RoleOf(g, q)
    {
      FindMemberAfterSetRole(g.members, user, role, q);
    }
    g'
  }

  /**
   `updateMemberRole`: checks in order the required fields, the role name
   (before any lookup), the group, the requester being admin, and that the
   admin is not changing their own role.
   */
  function UpdateMemberRole(groups: GroupStore, groupId: Id, userId: Id, newRole: string, requester: Id)
    : (r: Result<GroupStore>)
    ensures groupId == "" || userId == "" || newRole == ""
            ==> r == Err(Failure(400, "Group ID, User ID, and new role are required"))
    ensures groupId != "" && userId != "" && newRole != "" && ParseRole(newRole).None?
            ==> r == Err(Failure(400, "Invalid role. Must be: admin, manager, member, or viewer"))
    ensures groupId != "" && userId != "" && ParseRole(newRole).Some? && groupId !in groups
            ==> r == Err(Failure(404, "Group not found"))
    ensures groupId != "" && userId != "" && ParseRole(newRole).Some? && groupId in groups
            && !Allowed(groups[groupId], requester, ChangeRoleAction)
            ==> r == Err(Failure(403, "Only admins can change member roles"))
    // an admin can never change their own role
    ensures groupId != "" && userId != "" && userId == requester && ParseRole(newRole).Some? && groupId in groups
            && Allowed(groups[groupId], requester, ChangeRoleAction)
            ==> r == Err(Failure(400, "You cannot change your own role"))
    ensures r.Ok? <==> groupId != "" && userId != "" && groupId in groups && userId != requester
                       && ParseRole(newRole).Some? && Allowed(groups[groupId], requester, ChangeRoleAction)
    // the target now holds the new role; nobody else's entry changes
    ensures r.Ok? ==> groupId in r.value
    ensures r.Ok? ==> var g := groups[groupId];
                      var g' := r.value[groupId];
                      && OnlyGroupChanged(groups, r.value, groupId, g')
                      && g' == SetMemberRole(g, userId, ParseRole(newRole).value)
                      && RoleOf(g', requester) == Some(Admin)
  {
    if groupId == "" || userId == "" || newRole == "" then
      Err(Failure(400, "Group ID, User ID, and new role are required"))
    else
      match ParseRole(newRole)
      case None => Err(Failure(400, "Invalid role. Must be: admin, manager, member, or viewer"))
      case Some(role) =>
        if groupId !in groups then Err(Failure(404, "Group not found"))
        else
          var g := groups[groupId];
          InlineGatesFollowMatrix(g, requester);
          if !IsAdmin(g, requester) then Err(Failure(403, "Only admins can change member roles"))
          else if userId == requester then Err(Failure(400, "You cannot change your own role"))
          else
            Ok(groups[groupId := SetMemberRole(g, userId, role)])
  }

  /** Setting a user's role moves no entry, so lookups find the same position. */
  lemma {:induction false} FindMemberAfterSetRole(members: seq<Membership>, user: Id, role: Role, query: Id)
    ensures var found := FindMember(SetRole(members, user, role), query);
            && (FindMember(members, query).None? <==> found.None?)
            && (found.Some? && query == user ==> found.value == FindMember(members, query).value.(role := role))
            && (found.Some? && query != user ==> found.value == FindMember(members, query).value)
  {
    if |members| > 0 {
      assert SetRole(members, user, role)[1..] == SetRole(members[1..], user, role);
      FindMemberAfterSetRole(members[1..], user, role, query);
    }
  }

  /**
   Every mutation leaves the stored `totalSpent` of the remaining groups as
   it was (`addMembers`, a method, states it in its own contract).
   */
  lemma MutationsKeepStoredTotals(groups: GroupStore, users: UserDao.UserStore, groupId: Id, requester: Id,
                                  name: string, description: string, thumbnail: string, email: string,
                                  userId: Id, newRole: string, newId: Id, creator: Id)
    ensures var c := Create(groups, newId, name, description, thumbnail, creator);
            c.Ok? ==> KeepsTotals(groups, c.value.0)
    ensures var u := Update(groups, groupId, name, description, thumbnail, requester);
            u.Ok? ==> KeepsTotals(groups, u.value.0)
    ensures var rm := RemoveMember(groups, users, groupId, email, requester);
            rm.Ok? ==> KeepsTotals(groups, rm.value)
    ensures var d := DeleteGroup(groups, groupId, requester);
            d.Ok? ==> KeepsTotals(groups, d.value)
    ensures var ur := UpdateMemberRole(groups, groupId, userId, newRole, requester);
            ur.Ok? ==> KeepsTotals(groups, ur.value)
  {
  }

  /** One page of `getMyGroups`. */
  datatype GroupsPage = GroupsPage(groups: seq<Group>, window: PageWindow)

  /**
   `getMyGroups`. The directory's page of groups and their count are inputs
   (the directory's query is not part of this model), as is `spent`, the
   per-group spending the expense statistics compute.
   */
  function GetMyGroups(pageQuery: Option<int>, limitQuery: Option<int>, page: seq<Group>, total: nat,
                       spent: Id -> int): (r: GroupsPage)
    ensures (pageQuery.None? || pageQuery.value == 0) ==> r.window.currentPage == 1
    ensures pageQuery.Some? && pageQuery.value != 0 ==> r.window.currentPage == pageQuery.value
    ensures (limitQuery.None? || limitQuery.value == 0) ==> r.window.limit == 9
    ensures limitQuery.Some? && limitQuery.value != 0 ==> r.window.limit == limitQuery.value
    ensures r.window.total == total
    // the page count is Math.ceil(total / limit)
    ensures r.window.totalPages == CeilDiv(total, r.window.limit)
    ensures r.window.limit > 0 ==> r.window.limit * (r.window.totalPages - 1) < total <= r.window.limit * r.window.totalPages
    // same groups, same order; only the spending is replaced by the computed one
    ensures |r.groups| == |page|
    ensures forall i :: 0 <= i < |page| ==>
              r.groups[i].totalSpent == spent(page[i].id) && r.groups[i] == page[i].(totalSpent := r.groups[i].totalSpent)
  {
    var withSpending := seq(|page|, i requires 0 <= i < |page| => page[i].(totalSpent := spent(page[i].id)));
    GroupsPage(withSpending, Window(pageQuery, limitQuery, 9, total))
  }
}
