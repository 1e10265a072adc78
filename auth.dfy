/**
 * Signing up and logging in (`SignupUseCase.execute`, `LoginUseCase.execute`).
 * Password hashing, hash comparison and token issuing belong to a crypto
 * library and are parameters here; the database's generated id and
 * timestamp are passed in, and so is the instant a token is signed at,
 * since `jwt.sign` stamps it into the token.
 */
module Auth {
  import opened Wrappers
  import opened Entities
  import opened Errors

  const EmailInUse := "Email already in use"
  const UsernameInUse := "Username already in use"
  const InvalidCredentials := "Invalid credentials"

  /**
   * `hashPassword`, `comparePassword(password, hash)` and `generateToken(userId)`;
   * the token also depends on the instant it is issued at, which sets its
   * issue and expiry times.
   */
  datatype AuthService = AuthService(
    hashPassword: string -> string,
    comparePassword: (string, string) -> bool,
    generateToken: (string, nat) -> string)

  /** What signing up returns: the user without its password, and a token. */
  datatype Session = Session(user: PublicUser, token: string)

  /** The two columns users are looked up by. */
  datatype Column = Email | Username

  function ColumnOf(u: User, c: Column): string {
    match c
    case Email => u.email
    case Username => u.username
  }

  /** `findByEmail` and `findByUsername`: the user whose `column` holds `value`, if any. */
  function FindBy(users: seq<User>, column: Column, value: string): (r: Option<User>)
    ensures r.None? <==> forall i :: 0 <= i < |users| ==> ColumnOf(users[i], column) != value
    ensures r.Some? ==> r.value in users && ColumnOf(r.value, column) == value
  {
    if |users| == 0 then None
    else if ColumnOf(users[0], column) == value then Some(users[0])
    else FindBy(users[1..], column, value)
  }

  /** Emails and usernames are unique, as the table's constraints demand. */
  predicate UniqueAccounts(users: seq<User>) {
    forall i, j :: 0 <= i < j < |users| ==> users[i].email != users[j].email && users[i].username != users[j].username
  }

  /** `const { password, ...userWithoutPassword } = user`. */
  function WithoutPassword(u: User): PublicUser {
    PublicUser(u.id, u.email, u.username, u.name, u.bio, u.createdAt)
  }

  /** The row `create({...data, password: hashedPassword})` inserts. */
  function NewUser(auth: AuthService, data: CreateUserData, id: string, now: nat): User {
    User(id, data.email, data.username, auth.hashPassword(data.password), data.name, None, now)
  }

  /** `signup(data)`: the session or the error thrown, and the users after it. */
  function SignupStep(auth: AuthService, users: seq<User>, data: CreateUserData, id: string, now: nat)
    : (Result<Session, AppError>, seq<User>)
  {
    if FindBy(users, Email, data.email).Some? then (Err(ConflictError(EmailInUse)), users)
    else if FindBy(users, Username, data.username).Some? then (Err(ConflictError(UsernameInUse)), users)
    else
      var user := NewUser(auth, data, id, now);
      (Ok(Session(WithoutPassword(user), auth.generateToken(user.id, now))), users + [user])
  }

  /** `login(email, password)` at instant `now`: the token, or the error thrown. */
  function Login(auth: AuthService, users: seq<User>, email: string, password: string, now: nat): Result<string, AppError> {
    match FindBy(users, Email, email)
    case None => Err(UnauthorizedError(InvalidCredentials))
    case Some(user) =>
      if !auth.comparePassword(password, user.password) then Err(UnauthorizedError(InvalidCredentials))
      else Ok(auth.generateToken(user.id, now))
  }

  /**
   * A taken email is refused first, then a taken username, each as a
   * conflict that stores nothing; otherwise exactly one user is added,
   * holding the hash of the password, and the session returns that user
   * without the password, with a token for its id.
   */
  lemma SignupOutcome(auth: AuthService, users: seq<User>, data: CreateUserData, id: string, now: nat)
    ensures var (r, after) := SignupStep(auth, users, data, id, now);
            var emailTaken := exists i :: 0 <= i < |users| && users[i].email == data.email;
            var usernameTaken := exists i :: 0 <= i < |users| && users[i].username == data.username;
            (emailTaken ==> r == Err(ConflictError(EmailInUse)) && after == users) &&
            (!emailTaken && usernameTaken ==> r == Err(ConflictError(UsernameInUse)) && after == users) &&
            (!emailTaken && !usernameTaken ==>
               |after| == |users| + 1 && after[..|users|] == users &&
               var user := after[|users|];
               user.password == auth.hashPassword(data.password) &&
               user.email == data.email && user.username == data.username && user.name == data.name &&
               r == Ok(Session(PublicUser(id, data.email, data.username, data.name, None, now), auth.generateToken(id, now))))
  {
    var (r, after) := SignupStep(auth, users, data, id, now);
    if exists i :: 0 <= i < |users| && users[i].email == data.email {
      var i :| 0 <= i < |users| && users[i].email == data.email;
      assert FindBy(users, Email, data.email).Some?;
    } else if exists i :: 0 <= i < |users| && users[i].username == data.username {
      var i :| 0 <= i < |users| && users[i].username == data.username;
      assert FindBy(users, Username, data.username).Some?;
    } else {
      assert after[..|users|] == users;
    }
  }

  /** Signing up keeps emails and usernames unique. */
  lemma SignupKeepsAccountsUnique(auth: AuthService, users: seq<User>, data: CreateUserData, id: string, now: nat)
    requires UniqueAccounts(users)
    ensures UniqueAccounts(SignupStep(auth, users, data, id, now).1)
  {
    var (r, after) := SignupStep(auth, users, data, id, now);
    if r.Ok? {
      forall i, j | 0 <= i < j < |after|
        ensures after[i].email != after[j].email && after[i].username != after[j].username
      {
        if j == |users| {
          assert after[i] == users[i];
        }
      }
    }
  }

  /**
   * An unknown email and a wrong password fail with the very same error, and
   * for an unknown email the password is never compared: the outcome is the
   * same whatever the comparison would say.
   */
  lemma LoginFailuresAlike(auth: AuthService, other: AuthService, users: seq<User>, email: string, password: string, now: nat)
    requires other.generateToken == auth.generateToken
    ensures Login(auth, users, email, password, now).Err? ==>
              Login(auth, users, email, password, now) == Err(UnauthorizedError(InvalidCredentials))
    ensures (forall i :: 0 <= i < |users| ==> users[i].email != email) ==>
              Login(auth, users, email, password, now) == Login(other, users, email, password, now) == Err(UnauthorizedError(InvalidCredentials))
    ensures Login(auth, users, email, password, now).Ok? <==>
              exists i :: 0 <= i < |users| && users[i].email == email && auth.comparePassword(password, FindBy(users, Email, email).value.password)
  {
    if FindBy(users, Email, email).Some? {
      var u := FindBy(users, Email, email).value;
      var i :| 0 <= i < |users| && users[i] == u;
    }
  }

  /**
   * When the hash comparison accepts a password against its own hash, a
   * user who has just signed up can log in with the same email and
   * password, at any instant, and gets a token for the new account issued
   * at that instant; it equals the signup's token only when both are
   * issued at the same instant.
   */
  lemma LoginAfterSignup(auth: AuthService, users: seq<User>, data: CreateUserData, id: string, now: nat, loginAt: nat)
    requires forall p :: auth.comparePassword(p, auth.hashPassword(p))
    ensures var (r, after) := SignupStep(auth, users, data, id, now);
            r.Ok? ==> Login(auth, after, data.email, data.password, loginAt) == Ok(auth.generateToken(id, loginAt)) &&
                      (loginAt == now ==> Login(auth, after, data.email, data.password, loginAt) == Ok(r.value.token))
  {
    var (r, after) := SignupStep(auth, users, data, id, now);
    if r.Ok? {
      var user := NewUser(auth, data, id, now);
      assert after == users + [user];
      FindAfterAppend(users, user);
      assert auth.comparePassword(data.password, auth.hashPassword(data.password));
    }
  }

  /** Looking up the email of a user appended to a table that lacks it finds that user. */
  lemma {:induction false} FindAfterAppend(users: seq<User>, user: User)
    requires forall i :: 0 <= i < |users| ==> users[i].email != user.email
    ensures FindBy(users + [user], Email, user.email) == Some(user)
  {
    if |users| > 0 {
      assert (users + [user])[1..] == users[1..] + [user];
      FindAfterAppend(users[1..], user);
    } else {
      assert users + [user] == [user];
    }
  }

  /** The user table. */
  class UserRepository {
    var users: seq<User>

    constructor ()
      ensures users == []
    {
      users := [];
    }

    method Create(user: User)
      modifies this
      ensures users == old(users) + [user]
    {
      users := users + [user];
    }
  }

  /** Checks the email, then the username, then stores the hashed password and issues a token. */
  method Signup(auth: AuthService, repository: UserRepository, data: CreateUserData, id: string, now: nat)
      returns (r: Result<Session, AppError>)
    modifies repository
    ensures (r, repository.users) == SignupStep(auth, old(repository.users), data, id, now)
  {
    var existingUser := FindBy(repository.users, Email, data.email);
    if existingUser.Some? {
      return Err(ConflictError(EmailInUse));
    }
    var existingUsername := FindBy(repository.users, Username, data.username);
    if existingUsername.Some? {
      return Err(ConflictError(UsernameInUse));
    }
    var hashedPassword := auth.hashPassword(data.password);
    var user := User(id, data.email, data.username, hashedPassword, data.name, None, now);
    repository.Create(user);
    var token := auth.generateToken(user.id, now);
    r := Ok(Session(WithoutPassword(user), token));
  }
}
