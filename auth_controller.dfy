/** Registration, login, logout and token validation. bcrypt is the parameter `hash`, and
    bcrypt.compare(password, stored) holds exactly when `stored == hash(password)`; a JSON Web
    Token is represented by the claims it carries, its signature and expiry being left out. */
module AuthController {
  import opened Common
  import opened Schema

  // ---------------------------------------------------------------------------
  // Token payload (generateToken)
  // ---------------------------------------------------------------------------

  /** The claims of a signed token, which are also the `user` object of the login and
      profile-update replies. */
  datatype Claims = Claims(id: int, username: string, profilePicUrl: Option<string>, email: string,
                           bio: Option<string>, joinedDate: int)

  /** The payload generateToken signs: a projection of the user row with `createdAt` renamed
      `joinedDate`. */
  function ClaimsOf(u: User): (c: Claims)
    ensures c.id == u.id && c.username == u.username && c.email == u.email
    ensures c.bio == u.bio && c.profilePicUrl == u.profilePicUrl && c.joinedDate == u.createdAt
  {
    Claims(u.id, u.username, u.profilePicUrl, u.email, u.bio, u.createdAt)
  }

  /** The payload carries every column but the password: two rows that differ only in the
      password give the same claims, and rows with the same claims differ at most there. */
  lemma ClaimsOmitPasswordOnly(u: User, v: User)
    ensures ClaimsOf(u) == ClaimsOf(v) <==> u.(password := v.password) == v
  {
    if ClaimsOf(u) == ClaimsOf(v) {
      assert u.id == v.id && u.username == v.username && u.email == v.email;
      assert u.bio == v.bio && u.profilePicUrl == v.profilePicUrl && u.createdAt == v.createdAt;
    }
  }

  /** bcrypt.compare against an uninterpreted hash. */
  predicate Compare(hash: string -> string, password: string, stored: string) {
    stored == hash(password)
  }

  // ---------------------------------------------------------------------------
  // register
  // ---------------------------------------------------------------------------

  /** A reply of register: the status, the `msg` field and, for a taken email, `success`. */
  datatype RegisterReply = RegisterReply(code: int, msg: string, success: Option<bool>)

  const MissingFields: RegisterReply := RegisterReply(BAD_REQUEST, "Please provide all required fields", None)
  const EmailRegistered: RegisterReply := RegisterReply(BAD_REQUEST, "Email is already registered", Some(false))
  const Registered: RegisterReply := RegisterReply(CREATED, "User registered successfully", None)
  const RegistrationFailed: RegisterReply := RegisterReply(SERVER_ERROR, "Server error during registration", None)

  /** register: 400 when the username, email or password is missing or empty; 400 with
      `success: false` when the email is taken; otherwise one new user whose stored password
      is the hash of the given one, or 500 when the INSERT fails (a taken username). */
  method Register(db: Store, username: Option<string>, email: Option<string>, password: Option<string>,
                  bio: Option<string>, hash: string -> string, now: int) returns (r: RegisterReply)
    requires db.Valid()
    modifies db
    ensures db.Valid()
    ensures db.notes == old(db.notes)
    ensures r == MissingFields <==> !Truthy(username) || !Truthy(email) || !Truthy(password)
    ensures r == EmailRegistered <==>
              Truthy(username) && Truthy(email) && Truthy(password) && EmailTaken(old(db.users), email.value)
    ensures r == RegistrationFailed <==>
              && Truthy(username) && Truthy(email) && Truthy(password)
              && !EmailTaken(old(db.users), email.value) && UsernameTaken(old(db.users), username.value)
    ensures r in {MissingFields, EmailRegistered, Registered, RegistrationFailed}
    ensures r != Registered ==> db.users == old(db.users)
    ensures r == Registered ==> (
              && Truthy(username) && Truthy(email) && Truthy(password)
              && db.users == old(db.users) + [User(old(db.nextUserId), username.value, email.value,
                                                   hash(password.value), bio, None, now)])
  {
    if !Truthy(username) || !Truthy(email) || !Truthy(password) {
      return MissingFields;
    }
    var existingUser := Filter(db.users, (u: User) => u.email == email.value);
    if |existingUser| > 0 {
      assert existingUser[0] in db.users;
      return EmailRegistered;
    }
    var hashedPassword := hash(password.value);
    var res := db.InsertUser(UserRow(username.value, email.value, hashedPassword, bio), now);
    if res.Rejected? {
      return RegistrationFailed;
    }
    r := Registered;
  }

  /** Registering the same email twice: the second attempt is refused and adds nothing. */
  method RegisterTwice(db: Store, username: string, otherName: string, email: string, password: string,
                       hash: string -> string, now: int) returns (first: RegisterReply, second: RegisterReply)
    requires db.Valid()
    requires username != "" && otherName != "" && email != "" && password != ""
    modifies db
    ensures first == Registered ==> second == EmailRegistered
    ensures first == Registered ==> |db.users| == |old(db.users)| + 1
  {
    first := Register(db, Some(username), Some(email), Some(password), None, hash, now);
    if first == Registered {
      assert db.users[|db.users| - 1] in db.users;
    }
    second := Register(db, Some(otherName), Some(email), Some(password), None, hash, now);
  }

  // ---------------------------------------------------------------------------
  // login
  // ---------------------------------------------------------------------------

  /** `users[0]` of SELECT * FROM User WHERE email = ?. */
  function FirstWithEmail(users: seq<User>, email: string): (r: Option<User>)
    ensures r.Some? ==> r.value in users && r.value.email == email
    ensures r.None? <==> !EmailTaken(users, email)
  {
    var rows := Filter(users, (u: User) => u.email == email);
    if rows == [] then None else assert rows[0] in rows; Some(rows[0])
  }

  /** The three replies login gives without a store error. */
  datatype LoginReply = MissingCredentials | InvalidCredentials | LoggedIn(token: Claims, user: Claims)
  {
    function Code(): int {
      if LoggedIn? then OK else BAD_REQUEST
    }

    function Msg(): string {
      match this
      case MissingCredentials => "Please provide email and password"
      case InvalidCredentials => "Invalid email or password"
      case LoggedIn(_, _) => "Login successful"
    }
  }

  /** login: reads the table and never writes it. */
  function Login(users: seq<User>, email: Option<string>, password: Option<string>,
                 hash: string -> string): (r: LoginReply)
    ensures r == MissingCredentials <==> !Truthy(email) || !Truthy(password)
    ensures r.LoggedIn? ==> (
              && Truthy(email) && Truthy(password) && r.user == r.token
              && exists u :: u in users && u.email == email.value && Compare(hash, password.value, u.password)
                             && r.token == ClaimsOf(u))
    ensures Truthy(email) && Truthy(password) && !EmailTaken(users, email.value) ==> r == InvalidCredentials
  {
    if !Truthy(email) || !Truthy(password) then MissingCredentials
    else
      match FirstWithEmail(users, email.value)
      case None => InvalidCredentials
      case Some(user) =>
        if !Compare(hash, password.value, user.password) then InvalidCredentials
        else
          var token := ClaimsOf(user);
          LoggedIn(token, ClaimsOf(user))
  }

  /** Under the UNIQUE email column, login succeeds exactly for a registered email together
      with a password that hashes to the stored one. */
  lemma LoginSucceedsIff(users: seq<User>, email: string, password: string, hash: string -> string)
    requires DistinctBy(users, UserEmail)
    requires email != "" && password != ""
    ensures Login(users, Some(email), Some(password), hash).LoggedIn? <==>
              exists u :: u in users && u.email == email && Compare(hash, password, u.password)
  {
    if exists u :: u in users && u.email == email && Compare(hash, password, u.password) {
      var u :| u in users && u.email == email && Compare(hash, password, u.password);
      var first := FirstWithEmail(users, email).value;
      SameEmailSameUser(users, u, first);
    }
  }

  lemma SameEmailSameUser(users: seq<User>, u: User, v: User)
    requires DistinctBy(users, UserEmail)
    requires u in users && v in users && u.email == v.email
    ensures u == v
  {
    var i :| 0 <= i < |users| && users[i] == u;
    var j :| 0 <= j < |users| && users[j] == v;
    assert UserEmail(users[i]) == UserEmail(users[j]);
  }

  /** An unknown email and a wrong password for a known one give the same reply, with the
      same status and message, so a caller cannot tell which emails are registered. */
  lemma LoginFailuresIndistinguishable(users: seq<User>, unknown: string, anyPassword: string,
                                       known: User, wrongPassword: string, hash: string -> string)
    requires DistinctBy(users, UserEmail)
    requires unknown != "" && anyPassword != "" && known.email != "" && wrongPassword != ""
    requires !EmailTaken(users, unknown)
    requires known in users && !Compare(hash, wrongPassword, known.password)
    ensures Login(users, Some(unknown), Some(anyPassword), hash) == InvalidCredentials
    ensures Login(users, Some(known.email), Some(wrongPassword), hash) == InvalidCredentials
    ensures Login(users, Some(unknown), Some(anyPassword), hash).Code() == BAD_REQUEST
  {
    LoginSucceedsIff(users, known.email, wrongPassword, hash);
    forall u | u in users && u.email == known.email ensures !Compare(hash, wrongPassword, u.password) {
      SameEmailSameUser(users, u, known);
    }
  }

  // ---------------------------------------------------------------------------
  // logout and validate
  // ---------------------------------------------------------------------------

  /** logout: a fixed reply; the token stays valid until it expires. */
  function Logout(): Response<string> {
    Ok(OK, "Logout successful")
  }

  /** The reply of validate: the status and the `isValid` field. */
  datatype ValidateReply = ValidateReply(code: int, isValid: bool)

  /** validate: `isValid: true` exactly when the row of the token's user still exists,
      otherwise 401 with `isValid: false`. */
  function Validate(users: seq<User>, callerId: int): (r: ValidateReply)
    ensures r.isValid <==> HasUser(users, callerId)
    ensures r.code == (if HasUser(users, callerId) then OK else UNAUTHORIZED)
  {
    var rows := Filter(users, (u: User) => u.id == callerId);
    if |rows| == 0 then
      ValidateReply(UNAUTHORIZED, false)
    else
      assert rows[0] in rows;
      ValidateReply(OK, true)
  }
}
