/**
 The Group document (src/model/group.js) and the membership lookups the
 group and expense controllers perform on it.
 */
module GroupModel {
  import opened Results

  type Id = string

  /** The closed set of member roles. */
  datatype Role = Admin | Manager | Member | Viewer

  const DefaultRole: Role := Member

  const DefaultCurrency: string := "INR"

  /** A membership entry; `joinedAt` is a clock value and is not modelled. */
  datatype Membership = Membership(user: Id, role: Role)

  datatype Group = Group(
    id: Id,
    name: string,
    description: string,
    thumbnail: string,
    creator: Id,
    members: seq<Membership>,
    currency: string,
    totalSpent: int)

  /** The spelling of each role in requests and documents. */
  function RoleName(r: Role): string
  {
    match r
    case Admin => "admin"
    case Manager => "manager"
    case Member => "member"
    case Viewer => "viewer"
  }

  /** `validRoles.includes(s)` and the schema enum: exactly the four spellings. */
  function ParseRole(s: string): (r: Option<Role>)
    ensures r.Some? <==> s in {"admin", "manager", "member", "viewer"}
    ensures r.Some? ==> RoleName(r.value) == s
  {
    if s == "admin" then Some(Admin)
    else if s == "manager" then Some(Manager)
    else if s == "member" then Some(Member)
    else if s == "viewer" then Some(Viewer)
    else None
  }

  /** The schema's `required` validators: a group needs a name and a creator. */
  predicate SchemaValid(g: Group)
  {
    g.name != "" && g.creator != ""
  }

  /** A new document with the schema defaults (member list empty, INR, nothing spent). */
  function NewGroup(id: Id, name: string, description: string, thumbnail: string, creator: Id): (g: Group)
    ensures g.id == id && g.creator == creator && g.members == []
    ensures g.currency == DefaultCurrency && g.totalSpent == 0
  {
    Group(id, name, description, thumbnail, creator, [], DefaultCurrency, 0)
  }

  /** `members.find(m => m.user == user)`: the first entry for `user`, if any. */
  function FindMember(members: seq<Membership>, user: Id): (r: Option<Membership>)
    ensures r.Some? <==> exists i :: 0 <= i < |members| && members[i].user == user
    ensures r.Some? ==> r.value.user == user && r.value in members
    ensures r.Some? ==> exists i :: 0 <= i < |members| && members[i] == r.value
                                    && forall j :: 0 <= j < i ==> members[j].user != user
  {
    if |members| == 0 then None
    else if members[0].user == user then Some(members[0])
    else
      var rest := FindMember(members[1..], user);
      assert rest.Some? ==> exists i :: 1 <= i < |members| && members[i] == rest.value
                                        && forall j :: 0 <= j < i ==> members[j].user != user by {
        if rest.Some? {
          var k :| 0 <= k < |members[1..]| && members[1..][k] == rest.value
                   && forall j :: 0 <= j < k ==> members[1..][j].user != user;
          assert members[k + 1] == rest.value;
        }
      }
      assert (exists i :: 0 <= i < |members| && members[i].user == user)
             ==> (exists i :: 0 <= i < |members[1..]| && members[1..][i].user == user) by {
        if exists i :: 0 <= i < |members| && members[i].user == user {
          var i :| 0 <= i < |members| && members[i].user == user;
          assert members[1..][i - 1].user == user;
        }
      }
      rest
  }

  /** The role `user` holds in `g`, if a member. */
  function RoleOf(g: Group, user: Id): Option<Role>
  {
    match FindMember(g.members, user)
    case None => None
    case Some(m) => Some(m.role)
  }

  /** `user` has an entry in the member list. */
  predicate IsMember(g: Group, user: Id)
  {
    exists i :: 0 <= i < |g.members| && g.members[i].user == user
  }

  /** The requests the group and expense controllers gate on the requester's role in the group. */
  datatype GroupAction = AddExpenseAction | AddMembersAction | UpdateAction | RemoveOtherAction | DeleteAction | ChangeRoleAction

  /**
   The permission matrix the controllers implement: every role but viewer
   may add expenses; managers share the admins' member and metadata rights;
   deleting the group and changing roles are the admins' alone.
   */
  function Permits(role: Role, action: GroupAction): bool
  {
    match action
    case AddExpenseAction => role != Viewer
    case AddMembersAction => role in {Admin, Manager}
    case UpdateAction => role in {Admin, Manager}
    case RemoveOtherAction => role in {Admin, Manager}
    case DeleteAction => role == Admin
    case ChangeRoleAction => role == Admin
  }

  /** A requester passes a gate when a member whose role the matrix permits. */
  predicate Allowed(g: Group, requester: Id, action: GroupAction)
  {
    RoleOf(g, requester).Some? && Permits(RoleOf(g, requester).value, action)
  }
}
