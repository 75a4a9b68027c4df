/**
 * The user resolver: registration, login, the current-user query and the
 * password-reset flow, over three stores the resolver changes in place:
 *   - the `user` table, keyed by the generated id;
 *   - the Redis key space holding reset tokens, key `prefix + token` to a user id;
 *   - the request's session, which holds the logged-in user's id or nothing.
 * Password hashing is the resolver's `hash` function: `argon2.verify(h, p)`
 * holds exactly when `h == hash(p)`.
 */
module UserService {
  import opened Wrappers
  import opened Validation

  /** A row of the `user` table; `password` holds the hash, never the plaintext. */
  datatype User = User(id: int, username: string, email: string, password: string)

  /** `UserResponse`: either a list of field errors or the user. */
  datatype UserResponse = Failure(errors: seq<FieldError>) | Success(user: User)

  /** The unique columns a user can be looked up by. */
  datatype Column = Username | Email

  function Field(u: User, c: Column): string
  {
    match c
    case Username => u.username
    case Email => u.email
  }

  const NewPasswordTooShort := FieldError("newPassword", "password cannot be empty or less than 3 characters long")
  const TokenExpired := FieldError("token", "token expired")
  const UserGone := FieldError("token", "user no longer exists")
  const UsernameTaken := FieldError("username", "username already exists!")
  const UnknownUser := FieldError("usernameOrEmail", "that username doesn't exist")
  const IncorrectPassword := FieldError("password", "incorrect password")

  /** Every row is stored under its own id. */
  ghost predicate KeyedById(users: map<int, User>)
  {
    forall k :: k in users ==> users[k].id == k
  }

  /**
   * `User.findOne({ where: { <column>: value } })` as a scan of the ids in
   * [lo, hi): the row with the smallest id whose column equals `value`.
   */
  function FindOne(users: map<int, User>, c: Column, value: string, lo: int, hi: int): (r: Option<User>)
    requires KeyedById(users)
    decreases hi - lo
    ensures r.Some? ==> lo <= r.value.id < hi && r.value.id in users && users[r.value.id] == r.value
    ensures r.Some? ==> Field(r.value, c) == value
    ensures r.Some? ==> forall k :: lo <= k < r.value.id && k in users ==> Field(users[k], c) != value
    ensures r.None? <==> forall k :: lo <= k < hi && k in users ==> Field(users[k], c) != value
  {
    if lo >= hi then None
    else if lo in users && Field(users[lo], c) == value then Some(users[lo])
    else FindOne(users, c, value, lo + 1, hi)
  }

  class UserResolver {
    /** `argon2.hash`, taken as a function of the password alone. */
    const hash: string -> string
    /** `FORGOT_PASSWORD_PREFIX`. */
    const prefix: string

    var users: map<int, User>
    var tokens: map<string, int>
    var session: Option<int>
    /** The next value of the table's id sequence. */
    var nextId: int

    /**
     * The database's guarantees about the user table: ids come from the
     * sequence, every row sits under its own id, and username and email are
     * unique columns.
     */
    ghost predicate Valid()
      reads this
    {
      && 1 <= nextId
      && KeyedById(users)
      && (forall k :: k in users ==> 1 <= k < nextId)
      && (forall i, j :: i in users && j in users && users[i].username == users[j].username ==> i == j)
      && (forall i, j :: i in users && j in users && users[i].email == users[j].email ==> i == j)
    }

    constructor (hash: string -> string, prefix: string)
      ensures Valid()
      ensures this.hash == hash && this.prefix == prefix
      ensures users == map[] && tokens == map[] && session == None
    {
      this.hash := hash;
      this.prefix := prefix;
      users := map[];
      tokens := map[];
      session := None;
      nextId := 1;
    }

    /** `argon2.verify(digest, password)`. */
    predicate Verify(digest: string, password: string)
      reads this
    {
      digest == hash(password)
    }

    /** The user whose `c` column equals `value`, if there is one; by uniqueness it is the only one. */
    function FindUser(c: Column, value: string): (r: Option<User>)
      reads this
      requires Valid()
      ensures r.Some? ==> r.value.id in users && users[r.value.id] == r.value && Field(r.value, c) == value
      ensures r.None? <==> forall k :: k in users ==> Field(users[k], c) != value
      ensures forall k :: k in users && Field(users[k], c) == value ==> r == Some(users[k])
    {
      FindOne(users, c, value, 1, nextId)
    }

    /** Whether inserting this username and email would violate a unique constraint (code 23505). */
    predicate Taken(username: string, email: string)
      reads this
    {
      exists k :: k in users && (users[k].username == username || users[k].email == email)
    }

    /** `me`: the logged-in user, or nothing when the session holds no (truthy) id. */
    function Me(): (r: Option<User>)
      reads this
      requires Valid()
      ensures r.Some? <==> session.Some? && session.value in users
      ensures r.Some? ==> r.value == users[session.value] && r.value.id == session.value
    {
      if session.None? || session.value == 0 then None
      else if session.value in users then Some(users[session.value])
      else None
    }

    /** `changePassword`: consumes a reset token and stores the new password's hash. */
    method ChangePassword(token: string, newPassword: string) returns (r: UserResponse)
      requires Valid()
      modifies this
      ensures Valid()
      ensures |newPassword| <= 3 ==> r == Failure([NewPasswordTooShort]) && unchanged(this)
      ensures |newPassword| > 3 && prefix + token !in old(tokens)
        ==> r == Failure([TokenExpired]) && unchanged(this)
      ensures |newPassword| > 3 && prefix + token in old(tokens) && old(tokens)[prefix + token] !in old(users)
        ==> r == Failure([UserGone]) && unchanged(this)
      ensures |newPassword| > 3 && prefix + token in old(tokens) && old(tokens)[prefix + token] in old(users) ==>
        var id := old(tokens)[prefix + token];
        // the record returned is the one read before the update
        && r == Success(old(users)[id])
        && users == old(users)[id := old(users)[id].(password := hash(newPassword))]
        && tokens == old(tokens) - {prefix + token}
        && session == Some(id)
        && nextId == old(nextId)
        && Me() == Some(users[id])
      // a token that has been used cannot be used again
      ensures r.Success? ==> prefix + token !in tokens
    {
      if |newPassword| <= 3 {
        return Failure([NewPasswordTooShort]);
      }
      var key := prefix + token;
      if key !in tokens {
        return Failure([TokenExpired]);
      }
      var userId := tokens[key];
      if userId !in users {
        return Failure([UserGone]);
      }
      var user := users[userId];
      users := users[userId := user.(password := hash(newPassword))];
      tokens := tokens - {key};
      session := Some(user.id);
      return Success(user);
    }

    /**
     * `forgotPassword`: always answers true; when a user has this email, the
     * key `prefix + token` is set to that user's id. `token` is the uuid
     * `forgotPassword` draws with `v4()`.
     */
    method ForgotPassword(email: string, token: string) returns (ok: bool)
      requires Valid()
      modifies this`tokens
      ensures Valid()
      ensures ok
      ensures FindUser(Email, email).None? ==> tokens == old(tokens)
      ensures FindUser(Email, email).Some? ==> tokens == old(tokens)[prefix + token := FindUser(Email, email).value.id]
      // with a fresh token, exactly one key is added and no other key changes
      ensures FindUser(Email, email).Some? && prefix + token !in old(tokens)
        ==> && tokens.Keys == old(tokens).Keys + {prefix + token}
            && (forall k :: k in old(tokens) ==> tokens[k] == old(tokens)[k])
    {
      var user := FindUser(Email, email);
      if user.None? {
        return true;
      }
      tokens := tokens[prefix + token := user.value.id];
      return true;
    }

    /** `register`: validate, hash, insert, and log the new user in. */
    method Register(options: UsernamePasswordInput) returns (r: UserResponse)
      requires Valid()
      modifies this
      ensures Valid()
      ensures ValidateRegister(options).Some?
        ==> r == Failure(ValidateRegister(options).value) && unchanged(this)
      ensures ValidateRegister(options).None? && old(Taken(options.username, options.email))
        ==> r == Failure([UsernameTaken]) && unchanged(this)
      ensures ValidateRegister(options).None? && !old(Taken(options.username, options.email)) ==>
        && r == Success(User(old(nextId), options.username, options.email, hash(options.password)))
        && r.user.id !in old(users)
        && users == old(users)[r.user.id := r.user]
        && tokens == old(tokens)
        && session == Some(r.user.id)
        && nextId == old(nextId) + 1
        && Me() == Some(r.user)
      ensures r.Failure? ==> unchanged(this)
    {
      var errors := ValidateRegister(options);
      if errors.Some? {
        return Failure(errors.value);
      }
      var hashedPassword := hash(options.password);
      if Taken(options.username, options.email) {
        return Failure([UsernameTaken]);
      }
      var user := User(nextId, options.username, options.email, hashedPassword);
      users := users[nextId := user];
      nextId := nextId + 1;
      session := Some(user.id);
      return Success(user);
    }

    /** `login`: by email when the input holds an `@`, by username otherwise. */
    method Login(usernameOrEmail: string, password: string) returns (r: UserResponse)
      requires Valid()
      modifies this`session
      ensures Valid()
      ensures
        var found := FindUser(if '@' in usernameOrEmail then Email else Username, usernameOrEmail);
        && (found.None? ==> r == Failure([UnknownUser]))
        && (found.Some? && !Verify(found.value.password, password) ==> r == Failure([IncorrectPassword]))
        && (found.Some? && Verify(found.value.password, password) ==> r == Success(found.value))
      ensures r.Failure? ==> session == old(session)
      ensures r.Success? ==> session == Some(r.user.id) && Me() == Some(r.user)
    {
      var user := FindUser(if '@' in usernameOrEmail then Email else Username, usernameOrEmail);
      if user.None? {
        return Failure([UnknownUser]);
      }
      var valid := Verify(user.value.password, password);
      if !valid {
        return Failure([IncorrectPassword]);
      }
      session := Some(user.value.id);
      return Success(user.value);
    }
  }

  /**
   * A reset token works once when the calls run one after the other: the
   * second `changePassword` with it finds the key gone. Overlapping calls are
   * not covered (each resolver call is one atomic step here).
   */
  method ResetTokenIsSingleUse(s: UserResolver, token: string, first: string, second: string)
      returns (r1: UserResponse, r2: UserResponse)
    requires s.Valid()
    modifies s
    ensures s.Valid()
    ensures r1.Success? && |second| > 3 ==> r2 == Failure([TokenExpired])
  {
    r1 := s.ChangePassword(token, first);
    r2 := s.ChangePassword(token, second);
  }

  /**
   * The reset flow end to end: a token issued for an existing user's email
   * lets that user set a new password, and logs them in with it.
   */
  method ResetFlow(s: UserResolver, email: string, token: string, newPassword: string)
      returns (sent: bool, changed: UserResponse)
    requires s.Valid()
    requires s.FindUser(Email, email).Some?
    requires |newPassword| > 3
    modifies s
    ensures s.Valid()
    ensures sent
    ensures changed.Success? && changed.user.id == old(s.FindUser(Email, email)).value.id
    ensures s.Me().Some? && s.Me().value.id == changed.user.id
    ensures s.Me().value.password == s.hash(newPassword)
  {
    sent := s.ForgotPassword(email, token);
    changed := s.ChangePassword(token, newPassword);
  }

  /** Registering a second account with a username or email already in use is refused. */
  method RegisterTwice(s: UserResolver, options: UsernamePasswordInput, again: UsernamePasswordInput)
      returns (r1: UserResponse, r2: UserResponse)
    requires s.Valid()
    modifies s
    ensures s.Valid()
    ensures r1.Success? && Acceptable(again)
      && (again.username == options.username || again.email == options.email)
      ==> r2 == Failure([UsernameTaken])
  {
    r1 := s.Register(options);
    r2 := s.Register(again);
  }

  /**
   * After a successful registration, logging in with the username and the
   * same password succeeds and logs that user in; a password with another
   * hash is refused and leaves the session as it was.
   */
  method RegisterThenLogin(s: UserResolver, options: UsernamePasswordInput, wrong: string)
      returns (registered: UserResponse, good: UserResponse, bad: UserResponse)
    requires s.Valid()
    requires s.hash(wrong) != s.hash(options.password)
    modifies s
    ensures s.Valid()
    ensures registered.Success? ==> good == Success(registered.user) && s.Me() == Some(registered.user)
    ensures registered.Success? ==> bad == Failure([IncorrectPassword])
  {
    registered := s.Register(options);
    good := s.Login(options.username, options.password);
    bad := s.Login(options.username, wrong);
  }
}
