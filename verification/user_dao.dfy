/**
 The user data-access layer (src/dao/userDao.js) over a collection of user
 documents with unique `_id`, `username` and `email` indexes. `findOne`
 answers the first matching document in collection order.
 */
module UserDao {
  import opened Results
  import opened UserModel

  type UserStore = seq<User>

  /** The unique indexes of the collection hold. */
  predicate UniqueKeys(users: UserStore)
  {
    forall i, j :: 0 <= i < j < |users| ==>
      users[i].id != users[j].id
      && users[i].username != users[j].username
      && users[i].email != users[j].email
  }

  /** Index of the first document satisfying `p`, if any. */
  function FirstWhere(users: UserStore, p: User -> bool): (r: Option<nat>)
    ensures r.None? <==> forall i :: 0 <= i < |users| ==> !p(users[i])
    ensures r.Some? ==> r.value < |users| && p(users[r.value])
    ensures r.Some? ==> forall j :: 0 <= j < r.value ==> !p(users[j])
  {
    if |users| == 0 then None
    else if p(users[0]) then Some(0)
    else
      var rest := FirstWhere(users[1..], p);
      assert forall i :: 1 <= i < |users| ==> users[i] == users[1..][i - 1];
      if rest.None? then None else Some(rest.value + 1)
  }

  function Lookup(users: UserStore, p: User -> bool): (r: Option<User>)
    ensures r.None? <==> forall i :: 0 <= i < |users| ==> !p(users[i])
    ensures r.Some? ==> r.value in users && p(r.value)
  {
    match FirstWhere(users, p)
    case None => None
    case Some(i) => Some(users[i])
  }

  /** `findOne({ email })`: exact match on the email. */
  function FindByEmail(users: UserStore, email: string): (r: Option<User>)
    ensures r.None? <==> forall i :: 0 <= i < |users| ==> users[i].email != email
    ensures r.Some? ==> r.value in users && r.value.email == email
  {
    Lookup(users, (u: User) => u.email == email)
  }

  function FindById(users: UserStore, id: Id): Option<User>
  {
    Lookup(users, (u: User) => u.id == id)
  }

  /** `findOne({ username: username.toLowerCase() })`. */
  function FindByUsername(users: UserStore, username: string): (r: Option<User>)
    ensures r.Some? ==> r.value in users && r.value.username == Lower(username)
    ensures r.None? <==> forall i :: 0 <= i < |users| ==> users[i].username != Lower(username)
  {
    var key := Lower(username);
    Lookup(users, (u: User) => u.username == key)
  }

  /** True when no stored document holds the lowercased username. */
  function CheckUsernameAvailable(users: UserStore, username: string): (available: bool)
    ensures available <==> forall i :: 0 <= i < |users| ==> users[i].username != Lower(username)
  {
    FindByUsername(users, username).None?
  }

  /**
   Usernames are stored lowercase, so a lookup finds the account whatever
   the case of the query.
   */
  lemma FindByUsernameIgnoresCase(users: UserStore, query: string, i: nat)
    requires UniqueKeys(users)
    requires i < |users| && users[i].username == Lower(query)
    ensures FindByUsername(users, query) == Some(users[i])
  {
    var key := Lower(query);
    var k := FirstWhere(users, (u: User) => u.username == key);
    assert k.Some?;
  }

  /** Why `save()` failed: a unique index hit, or any other failure (validation). */
  datatype SaveFailure = DuplicateKey(field: string) | NotDuplicate

  datatype SaveOutcome = Saved(users: UserStore, user: User) | SaveFailed(failure: SaveFailure)

  /**
   Inserts a document: schema validation runs first, then the unique indexes
   are checked (`_id`, then username, then email); an accepted document is
   appended.
   */
  function Save(users: UserStore, u: User): (r: SaveOutcome)
    ensures r.Saved? ==> r.users == users + [u] && r.user == u && SchemaValid(u)
    ensures r.Saved? <==> SchemaValid(u) && forall i :: 0 <= i < |users| ==>
              users[i].id != u.id && users[i].username != u.username && users[i].email != u.email
    ensures UniqueKeys(users) && r.Saved? ==> UniqueKeys(r.users)
  {
    if !SchemaValid(u) then SaveFailed(NotDuplicate)
    else
    SchemaUsernameIsLower(u.username);
    if FindById(users, u.id).Some? then SaveFailed(DuplicateKey("_id"))
    else if FindByUsername(users, u.username).Some? then SaveFailed(DuplicateKey("username"))
    else if FindByEmail(users, u.email).Some? then SaveFailed(DuplicateKey("email"))
    else Saved(users + [u], u)
  }

  /** The error codes `create` rethrows. */
  datatype DaoError = UsernameTaken | UserExist | InternalServerError

  /** Duplicate username is USERNAME_TAKEN, any other duplicate USER_EXIST, anything else internal. */
  function ErrorCode(f: SaveFailure): (e: DaoError)
    ensures f.DuplicateKey? && f.field == "username" <==> e == UsernameTaken
    ensures f.DuplicateKey? && f.field != "username" <==> e == UserExist
    ensures f.NotDuplicate? <==> e == InternalServerError
  {
    match f
    case DuplicateKey(field) => if field == "username" then UsernameTaken else UserExist
    case NotDuplicate => InternalServerError
  }

  datatype CreateOutcome = Created(users: UserStore, user: User) | CreateFailed(code: DaoError)

  /** `create`: lowercases the username, saves, and maps a failed save to an error code. */
  function Create(users: UserStore, data: User): (r: CreateOutcome)
    ensures r.Created? ==> r.user == data.(username := Lower(data.username))
    ensures r.Created? ==> r.users == users + [r.user]
    ensures r.CreateFailed? <==> Save(users, data.(username := Lower(data.username))).SaveFailed?
    ensures UniqueKeys(users) && r.Created? ==> UniqueKeys(r.users)
  {
    var normalised := data.(username := Lower(data.username));
    match Save(users, normalised)
    case Saved(users', u) => Created(users', u)
    case SaveFailed(f) => CreateFailed(ErrorCode(f))
  }

  /**
   A valid document whose username is free but whose email is stored fails
   with USER_EXIST, and one whose lowercased username is stored fails with
   USERNAME_TAKEN.
   */
  lemma CreateDuplicateCodes(users: UserStore, data: User)
    requires UniqueKeys(users)
    requires SchemaValid(data.(username := Lower(data.username)))
    requires FindById(users, data.id).None?
    ensures !CheckUsernameAvailable(users, data.username) ==> Create(users, data) == CreateFailed(UsernameTaken)
    ensures CheckUsernameAvailable(users, data.username) && FindByEmail(users, data.email).Some?
            ==> Create(users, data) == CreateFailed(UserExist)
  {
    LowerIdempotent(data.username);
  }
}
