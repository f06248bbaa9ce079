/**
 Account decisions of src/controllers/authController.js: the username
 validator and the order in which register, login, the username check and
 the Google sign-up reject a request. Password hashing and comparison are
 supplied by the caller (bcrypt is not modelled); issuing the session token
 and cookie is the response side effect of every successful login and is
 left out.
 */
module AuthController {
  import opened Results
  import opened UserModel
  import opened UserDao

  const MsgRegisterRequired := "Username, Name, Email, Password are required"
  const MsgBadUsername := "Username must be 3-20 characters, containing only letters, numbers, and underscores"
  const MsgUsernameTaken := "Username is already taken"
  const MsgBadCredentials := "Invalid email or password"
  const MsgUseGoogle := "Please login with Google"

  /**
   `isValidUsername`: a non-empty string of 3 to 20 characters matching
   `/^[a-z0-9_]+$/i`.
   */
  predicate IsValidUsername(v: Field)
  {
    v.Text? && v.Truthy() && 3 <= |v.text| <= 20 && MatchesClassPlus(v.text, true)
  }

  /**
   The validator's meaning: only strings qualify, of 3 to 20 characters,
   and such a string qualifies exactly when each character is an ASCII
   letter of either case, a digit or an underscore.
   */
  lemma IsValidUsernameMeaning(v: Field)
    ensures !v.Text? ==> !IsValidUsername(v)
    ensures IsValidUsername(v) ==> 3 <= |v.text| <= 20
    ensures v.Text? && 3 <= |v.text| <= 20 ==>
              (IsValidUsername(v) <==> forall i :: 0 <= i < |v.text| ==> IsUsernameChar(v.text[i]))
  {
    if v.Text? {
      MatchesClassPlusMeaning(v.text, true);
    }
  }

  /** A username the validator accepts meets the schema's rules once lowercased. */
  lemma ValidUsernameFitsSchema(u: string)
    requires IsValidUsername(Text(u))
    ensures UsernameSchemaOk(Lower(u))
  {
    IsValidUsernameMeaning(Text(u));
    var l := Lower(u);
    assert forall i :: 0 <= i < |l| ==> InLowerClass(l[i]) by {
      forall i | 0 <= i < |l|
        ensures InLowerClass(l[i])
      {
        assert IsUsernameChar(u[i]);
      }
    }
    MatchesClassPlusMeaning(l, false);
  }

  datatype RegisterRequest = RegisterRequest(username: Field, name: string, email: string, password: string)

  /**
   `register`. `hashed` is the bcrypt hash of the password and `newId` the id
   the database assigns. Answers the stored account and the new collection.
   */
  function Register(users: UserStore, req: RegisterRequest, hashed: string, newId: Id): (r: Result<(UserStore, User)>)
    // checks in order: required fields, username format, username availability
    ensures !(req.username.Truthy() && req.name != "" && req.email != "" && req.password != "")
            ==> r == Err(Failure(400, MsgRegisterRequired))
    ensures req.username.Truthy() && req.name != "" && req.email != "" && req.password != ""
            && !IsValidUsername(req.username)
            ==> r == Err(Failure(400, MsgBadUsername))
    ensures IsValidUsername(req.username) && req.name != "" && req.email != "" && req.password != ""
            && !CheckUsernameAvailable(users, req.username.text)
            ==> r == Err(Failure(400, MsgUsernameTaken))
    // a registered account holds the lowercased username and the hash, and is appended
    ensures r.Ok? ==> IsValidUsername(req.username)
                      && r.value.1.username == Lower(req.username.text)
                      && r.value.1.name == req.name
                      && r.value.1.email == req.email && r.value.1.password == hashed
                      && r.value.1.credits == 0
                      && r.value.0 == users + [r.value.1]
    ensures r.Ok? && UniqueKeys(users) ==> UniqueKeys(r.value.0)
  {
    if !(req.username.Truthy() && req.name != "" && req.email != "" && req.password != "") then
      Err(Failure(400, MsgRegisterRequired))
    else if !IsValidUsername(req.username) then
      Err(Failure(400, MsgBadUsername))
    else if !CheckUsernameAvailable(users, req.username.text) then
      Err(Failure(400, MsgUsernameTaken))
    else
      var data := NewUser(newId, Lower(req.username.text), req.name, req.email, hashed, "");
      LowerIdempotent(req.username.text);
      match Create(users, data)
      case Created(users', u) => Ok((users', u))
      case CreateFailed(UserExist) => Err(Failure(400, "User with the email already exists"))
      case CreateFailed(UsernameTaken) => Err(Failure(400, MsgUsernameTaken))
      case CreateFailed(InternalServerError) => Err(Failure(500, "Internal server error"))
  }

  /**
   Once the three checks pass, registration fails only on an email (or id)
   that is already stored: the validated username always satisfies the
   schema, so the internal-error branch is unreachable.
   */
  lemma RegisterOutcome(users: UserStore, req: RegisterRequest, hashed: string, newId: Id)
    requires UniqueKeys(users)
    requires IsValidUsername(req.username) && req.name != "" && req.email != "" && req.password != ""
    requires CheckUsernameAvailable(users, req.username.text)
    ensures Register(users, req, hashed, newId).Ok? <==>
            FindByEmail(users, req.email).None? && FindById(users, newId).None?
    ensures Register(users, req, hashed, newId).Err? ==>
            Register(users, req, hashed, newId) == Err(Failure(400, "User with the email already exists"))
  {
    ValidUsernameFitsSchema(req.username.text);
    LowerIdempotent(req.username.text);
  }

  /**
   `login`. `validationFailed` is the outcome of the route's field
   validators (whose reply carries their error list rather than a message);
   `compare` is bcrypt's comparison of a password with a stored hash.
   */
  function Login(users: UserStore, validationFailed: bool, email: string, password: string,
                 compare: (string, string) -> bool): (r: Result<User>)
    ensures validationFailed ==> r.Err? && r.failure.status == 400
    // an unknown email is answered exactly like a wrong password
    ensures !validationFailed && FindByEmail(users, email).None? ==> r == Err(Failure(400, MsgBadCredentials))
    // a password-less (Google) account is turned away before any comparison
    ensures !validationFailed && FindByEmail(users, email).Some? && FindByEmail(users, email).value.password == ""
            ==> r == Err(Failure(400, MsgUseGoogle))
    ensures r.Ok? ==> r.value in users && r.value.email == email && r.value.password != ""
                      && compare(password, r.value.password)
    ensures !validationFailed && r.Err? && r != Err(Failure(400, MsgUseGoogle)) ==> r == Err(Failure(400, MsgBadCredentials))
    // the right password for a stored account logs that account in
    ensures !validationFailed && FindByEmail(users, email).Some? && FindByEmail(users, email).value.password != ""
            && compare(password, FindByEmail(users, email).value.password)
            ==> r == Ok(FindByEmail(users, email).value)
  {
    if validationFailed then Err(Failure(400, "Request validation failed"))
    else
      match FindByEmail(users, email)
      case None => Err(Failure(400, MsgBadCredentials))
      case Some(user) =>
        if user.password == "" then Err(Failure(400, MsgUseGoogle))
        else if compare(password, user.password) then Ok(user)
        else Err(Failure(400, MsgBadCredentials))
  }

  /** An unknown email and a wrong password for a known one get the same reply. */
  lemma LoginHidesWhichCredentialFailed(users: UserStore, known: string, unknown: string, password: string,
                                        compare: (string, string) -> bool)
    requires FindByEmail(users, unknown).None?
    requires FindByEmail(users, known).Some? && FindByEmail(users, known).value.password != ""
    requires !compare(password, FindByEmail(users, known).value.password)
    ensures Login(users, false, known, password, compare) == Login(users, false, unknown, password, compare)
  {
  }

  /** `checkUsername`: answers whether a well-formed username is free. */
  function CheckUsername(users: UserStore, username: Field): (r: Result<bool>)
    ensures !username.Truthy() ==> r == Err(Failure(400, "Username is required"))
    ensures username.Truthy() && !IsValidUsername(username) ==> r == Err(Failure(400, MsgBadUsername))
    ensures r.Ok? <==> IsValidUsername(username)
    ensures r.Ok? ==> (r.value <==> forall i :: 0 <= i < |users| ==> users[i].username != Lower(username.text))
  {
    if !username.Truthy() then Err(Failure(400, "Username is required"))
    else if !IsValidUsername(username) then Err(Failure(400, MsgBadUsername))
    else Ok(CheckUsernameAvailable(users, username.text))
  }

  /**
   The identity fields of a Google account. `googleSso` takes them from the
   payload of a verified ID token; `completeGoogleSignup` takes them from the
   request body as the client sends them, unverified.
   */
  datatype GoogleData = GoogleData(googleId: string, name: string, email: string)

  datatype GoogleOutcome =
    | LoggedIn(user: User)
    | NeedsUsername(data: GoogleData)
    | SignedUp(users: UserStore, user: User)

  /**
   The OAuth client's `verifyIdToken`: the payload of a genuine token for
   this application, or `None` where it throws (a forged, expired or foreign
   token).
   */
  type TokenVerifier = string -> Option<GoogleData>

  const MsgGoogleAuthFailed := "Google Auth Failed"

  /**
   `googleSso`: the token is verified first; its email logs a known account
   in, and an unknown one is asked to pick a username.
   */
  function GoogleSso(users: UserStore, idToken: string, verify: TokenVerifier): (r: Result<GoogleOutcome>)
    ensures idToken == "" ==> r == Err(Failure(401, "Invalid request"))
    // a token the client rejects ends in the catch block's reply
    ensures idToken != "" && verify(idToken).None? ==> r == Err(Failure(500, MsgGoogleAuthFailed))
    ensures r.Ok? <==> idToken != "" && verify(idToken).Some?
    ensures r.Ok? ==> r.value.LoggedIn? || r.value.NeedsUsername?
    ensures r.Ok? && r.value.LoggedIn? ==> r.value.user in users && r.value.user.email == verify(idToken).value.email
    ensures idToken != "" && verify(idToken).Some? && FindByEmail(users, verify(idToken).value.email).None?
            ==> r == Ok(NeedsUsername(verify(idToken).value))
    ensures idToken != "" && verify(idToken).Some? && FindByEmail(users, verify(idToken).value.email).Some?
            ==> r == Ok(LoggedIn(FindByEmail(users, verify(idToken).value.email).value))
  {
    if idToken == "" then Err(Failure(401, "Invalid request"))
    else
      match verify(idToken)
      case None => Err(Failure(500, MsgGoogleAuthFailed))
      case Some(payload) =>
        match FindByEmail(users, payload.email)
        case Some(user) => Ok(LoggedIn(user))
        case None => Ok(NeedsUsername(payload))
  }

  /**
   `completeGoogleSignup`: creates a password-less account, or logs in the
   account that holds the email. `googleData` is the client-supplied body
   field: no token is verified, so naming any stored email logs that
   account in.
   */
  function CompleteGoogleSignup(users: UserStore, username: Field, googleData: Option<GoogleData>, newId: Id)
    : (r: Result<GoogleOutcome>)
    ensures !username.Truthy() || googleData.None?
            ==> r == Err(Failure(400, "Username and Google data are required"))
    ensures username.Truthy() && googleData.Some?
            && (googleData.value.googleId == "" || googleData.value.name == "" || googleData.value.email == "")
            ==> r == Err(Failure(400, "Invalid Google data"))
    ensures r.Ok? ==> IsValidUsername(username) && googleData.Some?
    ensures username.Truthy() && googleData.Some?
            && googleData.value.googleId != "" && googleData.value.name != "" && googleData.value.email != ""
            && !IsValidUsername(username)
            ==> r == Err(Failure(400, MsgBadUsername))
    // a new email with a taken username is refused before anything is stored
    ensures IsValidUsername(username) && googleData.Some?
            && googleData.value.googleId != "" && googleData.value.name != "" && googleData.value.email != ""
            && FindByEmail(users, googleData.value.email).None? && !CheckUsernameAvailable(users, username.text)
            ==> r == Err(Failure(400, MsgUsernameTaken))
    // an email already registered logs that account in and creates nothing
    ensures IsValidUsername(username) && googleData.Some?
            && googleData.value.googleId != "" && googleData.value.name != "" && googleData.value.email != ""
            && FindByEmail(users, googleData.value.email).Some?
            ==> r == Ok(LoggedIn(FindByEmail(users, googleData.value.email).value))
    ensures r.Ok? && r.value.SignedUp? ==>
              FindByEmail(users, googleData.value.email).None?
              && r.value.users == users + [r.value.user]
              && r.value.user.username == Lower(username.text)
              && r.value.user.password == "" && r.value.user.googleId == googleData.value.googleId
              && r.value.user.email == googleData.value.email && r.value.user.name == googleData.value.name
    ensures r.Ok? ==> r.value.LoggedIn? || r.value.SignedUp?
  {
    if !username.Truthy() || googleData.None? then
      Err(Failure(400, "Username and Google data are required"))
    else if googleData.value.googleId == "" || googleData.value.name == "" || googleData.value.email == "" then
      Err(Failure(400, "Invalid Google data"))
    else if !IsValidUsername(username) then
      Err(Failure(400, MsgBadUsername))
    else
      match FindByEmail(users, googleData.value.email)
      case Some(existing) => Ok(LoggedIn(existing))
      case None =>
        if !CheckUsernameAvailable(users, username.text) then Err(Failure(400, MsgUsernameTaken))
        else
          var g := googleData.value;
          LowerIdempotent(username.text);
          match Create(users, NewUser(newId, Lower(username.text), g.name, g.email, "", g.googleId))
          case Created(users', u) => Ok(SignedUp(users', u))
          case CreateFailed(UsernameTaken) => Err(Failure(400, MsgUsernameTaken))
          case CreateFailed(UserExist) => Err(Failure(400, "User with this email already exists"))
          case CreateFailed(InternalServerError) => Err(Failure(500, MsgGoogleAuthFailed))
  }

  /**
   A new email with a valid, free username signs up exactly when the
   database's id is fresh, and the collection keeps its unique indexes; the
   only other outcome is the duplicate-email reply.
   */
  lemma CompleteGoogleSignupOutcome(users: UserStore, username: Field, g: GoogleData, newId: Id)
    requires UniqueKeys(users)
    requires IsValidUsername(username) && g.googleId != "" && g.name != "" && g.email != ""
    requires FindByEmail(users, g.email).None? && CheckUsernameAvailable(users, username.text)
    ensures var r := CompleteGoogleSignup(users, username, Some(g), newId);
            && (r.Ok? <==> FindById(users, newId).None?)
            && (r.Ok? ==> r.value.SignedUp? && UniqueKeys(r.value.users))
            && (r.Err? ==> r == Err(Failure(400, "User with this email already exists")))
  {
    ValidUsernameFitsSchema(username.text);
    LowerIdempotent(username.text);
  }

  /**
   The availability answer agrees with registration: a name reported taken
   is refused by `register`, and a name reported free is never refused as
   taken.
   */
  lemma CheckUsernamePredictsRegister(users: UserStore, req: RegisterRequest, hashed: string, newId: Id)
    requires UniqueKeys(users)
    requires req.name != "" && req.email != "" && req.password != ""
    requires CheckUsername(users, req.username).Ok?
    ensures !CheckUsername(users, req.username).value
            ==> Register(users, req, hashed, newId) == Err(Failure(400, MsgUsernameTaken))
    ensures CheckUsername(users, req.username).value
            ==> Register(users, req, hashed, newId) != Err(Failure(400, MsgUsernameTaken))
  {
    if CheckUsername(users, req.username).value {
      RegisterOutcome(users, req, hashed, newId);
    }
  }

  /**
   The Google flow closes: an unknown email is asked for a username, the
   sign-up with a valid free one stores the account, and the same token
   afterwards logs that account in.
   */
  lemma GoogleSignupThenSsoLogsIn(users: UserStore, idToken: string, verify: TokenVerifier, payload: GoogleData,
                                  username: Field, newId: Id)
    requires UniqueKeys(users) && idToken != "" && verify(idToken) == Some(payload)
    requires payload.googleId != "" && payload.name != "" && payload.email != ""
    requires IsValidUsername(username) && CheckUsernameAvailable(users, username.text)
    requires FindByEmail(users, payload.email).None? && FindById(users, newId).None?
    ensures GoogleSso(users, idToken, verify) == Ok(NeedsUsername(payload))
    ensures var s := CompleteGoogleSignup(users, username, Some(payload), newId);
            && s.Ok? && s.value.SignedUp?
            && GoogleSso(s.value.users, idToken, verify) == Ok(LoggedIn(s.value.user))
  {
    CompleteGoogleSignupOutcome(users, username, payload, newId);
    var s := CompleteGoogleSignup(users, username, Some(payload), newId);
    var found := FindByEmail(s.value.users, payload.email);
    assert s.value.users[|users|] == s.value.user;
    assert found.Some?;
    assert found.value == s.value.user;
  }

  /**
   As written, the sign-up completion logs in whichever account holds the
   email the body names. Here the attacker holds a genuine token of their
   own Google account, sends it through the verified sign-in (which only
   asks for a username), then posts the victim's email as `googleData`: the
   victim's password account, never linked to Google, is logged in. The
   corrected handler signs the attacker up under their own email instead.
   */
  lemma CompleteGoogleSignupTrustsClientPayload()
    ensures var victim := NewUser("u1", "alice", "Alice", "alice@example.com", "$2b$10$hash", "");
            var own := GoogleData("g-mallory", "Mallory", "mallory@example.com");
            var verify: TokenVerifier := t => if t == "mallory-token" then Some(own) else None;
            var forged := GoogleData("forged-id", "Mallory", "alice@example.com");
            && GoogleSso([victim], "mallory-token", verify) == Ok(NeedsUsername(own))
            && CompleteGoogleSignup([victim], Text("mallory"), Some(forged), "u2") == Ok(LoggedIn(victim))
            && victim.email != verify("mallory-token").value.email
            && CompleteVerifiedGoogleSignup([victim], Text("mallory"), "mallory-token", verify, "u2") != Ok(LoggedIn(victim))
  {
    var victim := NewUser("u1", "alice", "Alice", "alice@example.com", "$2b$10$hash", "");
    var own := GoogleData("g-mallory", "Mallory", "mallory@example.com");
    IsValidUsernameMeaning(Text("mallory"));
    MatchesClassPlusMeaning("mallory", true);
    assert FindByEmail([victim], "alice@example.com") == Some(victim);
    assert FindByEmail([victim], "mallory@example.com").None?;
  }

  /**
   The sign-up completion as evidently intended: the ID token is verified
   again, as `googleSso` does, and the account fields come from its
   payload rather than from the request body.
   */
  function CompleteVerifiedGoogleSignup(users: UserStore, username: Field, idToken: string, verify: TokenVerifier,
                                        newId: Id): (r: Result<GoogleOutcome>)
    ensures idToken == "" ==> r == Err(Failure(401, "Invalid request"))
    ensures idToken != "" && verify(idToken).None? ==> r == Err(Failure(500, MsgGoogleAuthFailed))
    ensures idToken != "" && verify(idToken).Some? ==> r == CompleteGoogleSignup(users, username, verify(idToken), newId)
  {
    if idToken == "" then Err(Failure(401, "Invalid request"))
    else
      match verify(idToken)
      case None => Err(Failure(500, MsgGoogleAuthFailed))
      case Some(payload) => CompleteGoogleSignup(users, username, Some(payload), newId)
  }

  /**
   With the token verified, completing the sign-up reaches only the account
   of the email Google vouches for: a login is the one the sign-in with the
   same token gives, and a sign-up stores that email.
   */
  lemma VerifiedSignupLogsInOnlyTokenHolder(users: UserStore, username: Field, idToken: string, verify: TokenVerifier,
                                            newId: Id)
    ensures var r := CompleteVerifiedGoogleSignup(users, username, idToken, verify, newId);
            r.Ok? ==> verify(idToken).Some? && r.value.user.email == verify(idToken).value.email
    ensures var r := CompleteVerifiedGoogleSignup(users, username, idToken, verify, newId);
            r.Ok? && r.value.LoggedIn? ==> GoogleSso(users, idToken, verify) == Ok(LoggedIn(r.value.user))
  {
  }
}
