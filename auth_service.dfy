/**
 * Registration and login against the Users table, and the claims of the
 * token a successful login issues. BCrypt's hashing and verification are
 * the two functions of a `Crypto` value; JWT signing and serialisation are
 * not modelled, so a token is its decoded payload.
 */
module AuthService {
  import opened Wrappers
  import opened Numeric
  import opened Tables
  import opened Models
  import opened Dtos
  import opened Data

  /** `BCrypt.HashPassword` and `BCrypt.Verify`, left opaque. */
  datatype Crypto = Crypto(hash: string -> string, verify: (string, string) -> bool)

  /** The one property assumed of the hash: a password verifies against its own hash. */
  ghost predicate VerifiesOwnHashes(crypto: Crypto) {
    forall password :: crypto.verify(password, crypto.hash(password))
  }

  /** "Username already exists." and "Invalid credentials." */
  datatype AuthError = UsernameExists | InvalidCredentials

  /** The token's payload: the NameIdentifier and Name claims and the expiry, in seconds. */
  datatype Token = Token(nameIdentifier: string, name: string, expires: int)

  /** `AddDays(1)` on a clock counted in seconds. */
  const OneDay: int := 86400

  /** `Users.AnyAsync(u => u.Username == username)`. */
  predicate UsernameTaken(users: Table<User>, username: string) {
    exists k :: k in users.rows && users.rows[k].username == username
  }

  /**
   * RegisterAsync: refuses a taken username and otherwise stores one new
   * user holding the hash of the password. The length rules are checked
   * only by the request's validation, not here.
   */
  method Register(db: Database, dto: RegisterDto, crypto: Crypto) returns (r: Result<User, AuthError>)
    requires db.Valid()
    requires dto.username.Some? && dto.password.Some?
    modifies db
    ensures db.Valid()
    ensures db.projects == old(db.projects) && db.tasks == old(db.tasks)
    ensures UsernameTaken(old(db.users), dto.username.value) ==>
      r == Err(UsernameExists) && db.users == old(db.users)
    ensures !UsernameTaken(old(db.users), dto.username.value) ==>
      && r == Ok(User(old(db.users.nextId), dto.username.value, crypto.hash(dto.password.value)))
      && db.users == Add(old(db.users), r.value)
  {
    if UsernameTaken(db.users, dto.username.value) {
      return Err(UsernameExists);
    }
    var user := User(db.users.nextId, dto.username.value, crypto.hash(dto.password.value));
    db.users := Add(db.users, user);
    r := Ok(user);
  }

  /** `FirstOrDefault(u => u.Username == username)` over the rows in scan order. */
  function FindByUsername(rows: seq<User>, username: string): (r: Option<User>)
    ensures r.Some? ==> r.value in rows && r.value.username == username
    ensures r.None? ==> forall u :: u in rows ==> u.username != username
    decreases |rows|
  {
    if rows == [] then None
    else if rows[0].username == username then Some(rows[0])
    else FindByUsername(rows[1..], username)
  }

  /** GenerateJwtToken: the user's id as NameIdentifier, the username as Name, valid for one day. */
  function GenerateToken(user: User, now: int): (t: Token)
    ensures ParseInt(t.nameIdentifier) == Some(user.id)
    ensures t.name == user.username
    ensures t.expires == now + OneDay
  {
    ParseIntToString(user.id);
    Token(IntToString(user.id), user.username, now + OneDay)
  }

  /** LoginAsync: one failure for an unknown username and for a wrong password alike. */
  function Login(users: Table<User>, username: string, password: string, crypto: Crypto, now: int): (r: Result<Token, AuthError>)
    ensures r.Err? ==> r.error == InvalidCredentials
    ensures r.Ok? ==> UsernameTaken(users, username)
  {
    match FindByUsername(Rows(users), username)
    case None => Err(InvalidCredentials)
    case Some(user) =>
      if crypto.verify(password, user.passwordHash) then Ok(GenerateToken(user, now)) else Err(InvalidCredentials)
  }

  /**
   * Login's whole outcome: with usernames unique, it issues the named user's
   * token exactly when the password verifies against that user's hash, and
   * fails with InvalidCredentials otherwise, whether or not the name exists.
   */
  lemma LoginOutcome(users: Table<User>, username: string, password: string, crypto: Crypto, now: int)
    requires KeysBelowNext(users) && UsernamesUnique(users)
    ensures !UsernameTaken(users, username) ==> Login(users, username, password, crypto, now) == Err(InvalidCredentials)
    ensures forall k :: k in users.rows && users.rows[k].username == username ==>
      Login(users, username, password, crypto, now)
        == if crypto.verify(password, users.rows[k].passwordHash) then Ok(GenerateToken(users.rows[k], now))
           else Err(InvalidCredentials)
  {
    RowsAreValues(users);
    var found := FindByUsername(Rows(users), username);
    if found.Some? {
      var j :| j in users.rows && users.rows[j] == found.value;
      forall k | k in users.rows && users.rows[k].username == username ensures users.rows[k] == found.value {
        assert k == j;
      }
    } else {
      forall k | k in users.rows ensures users.rows[k].username != username {
        assert users.rows[k] in Rows(users);
      }
    }
  }

  /** A stored user logs in with the password whose hash was stored. */
  lemma LoginWithRegisteredPassword(users: Table<User>, k: int, password: string, crypto: Crypto, now: int)
    requires KeysBelowNext(users) && UsernamesUnique(users) && VerifiesOwnHashes(crypto)
    requires k in users.rows && users.rows[k].passwordHash == crypto.hash(password)
    ensures Login(users, users.rows[k].username, password, crypto, now) == Ok(GenerateToken(users.rows[k], now))
  {
    LoginOutcome(users, users.rows[k].username, password, crypto, now);
  }

  /** Register followed by Login with the same credentials issues a token naming the new user. */
  method RegisterThenLogin(db: Database, dto: RegisterDto, crypto: Crypto, now: int) returns (user: User, token: Token)
    requires db.Valid() && VerifiesOwnHashes(crypto)
    requires dto.username.Some? && dto.password.Some?
    requires !UsernameTaken(db.users, dto.username.value)
    modifies db
    ensures db.Valid()
    ensures db.projects == old(db.projects) && db.tasks == old(db.tasks)
    ensures user.id in db.users.rows && db.users.rows[user.id] == user && user.username == dto.username.value
    ensures ParseInt(token.nameIdentifier) == Some(user.id) && token.name == dto.username.value
  {
    var registered := Register(db, dto, crypto);
    user := registered.value;
    LoginWithRegisteredPassword(db.users, user.id, dto.password.value, crypto, now);
    var login := Login(db.users, dto.username.value, dto.password.value, crypto, now);
    token := login.value;
  }
}
