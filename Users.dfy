/** The user service: registration, login, and the table queries they run. */
module Users {
  import opened Wrappers
  import opened Strings
  import opened Dates
  import opened Linq
  import opened Models
  import opened Repositories
  import opened Jwt

  /** PasswordService.HashPassword: a deterministic function of a password and a salt. */
  type Hasher = (string, Bytes) -> string

  /** The one message of both login failures. */
  const InvalidCredentials: string := "Credentials were invalid."

  function RoleNotFoundMessage(userRoleId: int): string {
    "User Role " + IntToString(userRoleId) + " could not be found."
  }

  function UnavailableMessage(userName: string, email: string): string {
    "Username: " + userName + " or Email: " + email + " is unavailable."
  }

  /** The first role in the table with the given id, None when there is none. */
  function RetrieveUserRoleById(userRoles: seq<UserRole>, id: int): (r: Option<UserRole>)
    ensures r.None? <==> forall i :: 0 <= i < |userRoles| ==> userRoles[i].id != id
    ensures r.Some? ==> r.value in userRoles && r.value.id == id
  {
    FirstOrDefault(userRoles, (role: UserRole) => role.id == id)
  }

  /** The lookup by email ignores the case of ASCII letters on both sides. */
  predicate EmailMatches(user: User, email: string) {
    ToUpper(user.email) == ToUpper(email)
  }

  /** users[k] is the first user in table order whose email matches. */
  predicate IsFirstEmailMatch(users: seq<User>, email: string, k: int) {
    && 0 <= k < |users|
    && EmailMatches(users[k], email)
    && forall j :: 0 <= j < k ==> !EmailMatches(users[j], email)
  }

  function RetrieveUserByEmail(users: seq<User>, email: string): (r: Option<User>)
    ensures r.None? <==> forall i :: 0 <= i < |users| ==> !EmailMatches(users[i], email)
    ensures r.Some? ==> exists k :: IsFirstEmailMatch(users, email, k) && users[k] == r.value
  {
    FirstOrDefault(users, (user: User) => EmailMatches(user, email))
  }

  /** Some stored user has exactly the same email or exactly the same username. */
  predicate UserAlreadyRegistered(users: seq<User>, userToRegister: User) {
    exists i :: 0 <= i < |users| && Clashes(users[i], userToRegister)
  }

  /** The duplicate check is a row-by-row exact comparison: it fails on a table split
      in two exactly when it fails on either part, never on an empty table, and on a
      single row exactly when the email or the username is the same. */
  lemma {:induction false} DuplicateCheckPerRow(users: seq<User>, more: seq<User>, row: User, userToRegister: User)
    ensures !UserAlreadyRegistered([], userToRegister)
    ensures UserAlreadyRegistered([row], userToRegister) <==>
              row.email == userToRegister.email || row.userName == userToRegister.userName
    ensures UserAlreadyRegistered(users + more, userToRegister) <==>
              UserAlreadyRegistered(users, userToRegister) || UserAlreadyRegistered(more, userToRegister)
  {
    var all := users + more;
    if UserAlreadyRegistered(all, userToRegister) {
      var i :| 0 <= i < |all| && Clashes(all[i], userToRegister);
      if i < |users| {
        assert users[i] == all[i];
      } else {
        assert more[i - |users|] == all[i];
      }
    }
    if UserAlreadyRegistered(users, userToRegister) {
      var i :| 0 <= i < |users| && Clashes(users[i], userToRegister);
      assert all[i] == users[i];
    }
    if UserAlreadyRegistered(more, userToRegister) {
      var i :| 0 <= i < |more| && Clashes(more[i], userToRegister);
      assert all[|users| + i] == more[i];
    }
    assert [row][0] == row;
  }

  /** The first user in the table with the given id, None when there is none. */
  function RetrieveUserById(users: seq<User>, id: int): (r: Option<User>)
    ensures r.None? <==> !IsUserId(users, id)
    ensures r.Some? ==> r.value in users && r.value.id == id
  {
    FirstOrDefault(users, (user: User) => user.id == id)
  }

  /** The user object built from a registration request before it is saved; the
      database gives it its id. It carries the request's identity fields and the found
      role, and the password it stores is the one the login check accepts for the
      request's password. */
  function NewUser(request: UserRegisterRequest, role: UserRole, salt: Bytes, hashPassword: Hasher): (u: User)
    ensures hashPassword(request.password, u.salt) == u.password
    ensures IdentityOf(u) == TokenIdentity(0, request.userName, request.email, request.firstName,
                                           request.lastName, request.dateOfBirth, role.id)
    ensures u.userRoleId == request.userRoleId && u.userRole == role && u.salt == salt
  {
    User(0, request.userName, request.email, request.firstName, request.lastName,
         request.dateOfBirth, request.userRoleId, role, salt, hashPassword(request.password, salt))
  }

  /** Login run against a snapshot of the Users table; the store is only read. */
  function LoginOn(users: seq<User>, hashPassword: Hasher, jwtService: JwtService,
                 request: LoginRequest, now: int): (r: Result<LoginResponse, BloggyException>)
    ensures r.Failure? ==> r.error == InvalidLoginException(InvalidCredentials)
    ensures r.Success? <==>
              exists k :: IsFirstEmailMatch(users, request.email, k)
                          && hashPassword(request.password, users[k].salt) == users[k].password
    ensures r.Success? ==>
              exists k :: IsFirstEmailMatch(users, request.email, k)
                          && r.value.token == jwtService.GenerateJwtSecurityTokenFromUser(users[k], now)
  {
    match RetrieveUserByEmail(users, request.email)
    case None => Failure(InvalidLoginException(InvalidCredentials))
    case Some(userToAuthenticate) =>
      if hashPassword(request.password, userToAuthenticate.salt) == userToAuthenticate.password then
        Success(LoginResponse(jwtService.GenerateJwtSecurityTokenFromUser(userToAuthenticate, now)))
      else
        Failure(InvalidLoginException(InvalidCredentials))
  }

  class UserService {
    const db: BloggyDbContext
    const jwtService: JwtService
    const hashPassword: Hasher

    constructor (db: BloggyDbContext, jwtService: JwtService, hashPassword: Hasher)
      ensures this.db == db && this.jwtService == jwtService && this.hashPassword == hashPassword
    {
      this.db := db;
      this.jwtService := jwtService;
      this.hashPassword := hashPassword;
    }

    /** Login against the service's store, with its hasher and token service. */
    function Login(request: LoginRequest, now: int): (r: Result<LoginResponse, BloggyException>)
      reads db
      ensures r.Failure? ==> r.error == InvalidLoginException(InvalidCredentials)
      ensures r.Success? <==>
                exists k :: IsFirstEmailMatch(db.users, request.email, k)
                            && hashPassword(request.password, db.users[k].salt) == db.users[k].password
      ensures r.Success? ==>
                exists k :: IsFirstEmailMatch(db.users, request.email, k)
                            && r.value.token == jwtService.GenerateJwtSecurityTokenFromUser(db.users[k], now)
    {
      LoginOn(db.users, hashPassword, jwtService, request, now)
    }

    /** Registers a user. `salt` is what PasswordService.GenerateSalt returned; `saveError`
        is the DbUpdateException SaveChanges may raise. The role check comes first, then
        the duplicate check, then the save. */
    method RegisterUser(request: UserRegisterRequest, salt: Bytes, saveError: Option<string>)
      returns (r: Result<User, BloggyException>)
      requires db.Valid()
      modifies db
      ensures db.Valid()
      ensures db.userRoles == old(db.userRoles) && db.blogPosts == old(db.blogPosts)
      ensures RetrieveUserRoleById(old(db.userRoles), request.userRoleId).None? ==>
                r == Failure(EntityNotFoundException(RoleNotFoundMessage(request.userRoleId)))
                && unchanged(db)
      ensures RetrieveUserRoleById(old(db.userRoles), request.userRoleId).Some? ==>
                var candidate := NewUser(request, RetrieveUserRoleById(old(db.userRoles), request.userRoleId).value,
                                         salt, hashPassword);
                && (UserAlreadyRegistered(old(db.users), candidate) ==>
                      r == Failure(UserAlreadyRegisteredException(UnavailableMessage(request.userName, request.email)))
                      && unchanged(db))
                && (!UserAlreadyRegistered(old(db.users), candidate) && saveError.Some? ==>
                      r == Failure(GeneralDatabaseException(saveError.value, saveError.value))
                      && unchanged(db))
                && (!UserAlreadyRegistered(old(db.users), candidate) && saveError.None? ==>
                      r == Success(candidate.(id := old(db.userIdentity)))
                      && db.users == old(db.users) + [r.value]
                      && db.userIdentity == old(db.userIdentity) + 1
                      && db.blogPostIdentity == old(db.blogPostIdentity))
      ensures r.Success? ==>
                && r.value.userName == request.userName && r.value.email == request.email
                && r.value.firstName == request.firstName && r.value.lastName == request.lastName
                && r.value.dateOfBirth == request.dateOfBirth
                && r.value.userRoleId == request.userRoleId && r.value.userRole in db.userRoles
                && r.value.userRole.id == request.userRoleId
                && r.value.salt == salt && r.value.password == hashPassword(request.password, salt)
    {
      var requestedUserRole := RetrieveUserRoleById(db.userRoles, request.userRoleId);
      if requestedUserRole.None? {
        return Failure(EntityNotFoundException(RoleNotFoundMessage(request.userRoleId)));
      }
      var userToRegister := NewUser(request, requestedUserRole.value, salt, hashPassword);
      if UserAlreadyRegistered(db.users, userToRegister) {
        return Failure(UserAlreadyRegisteredException(UnavailableMessage(request.userName, request.email)));
      }
      InsertUserKeepsConsistent(db.users, db.userRoles, db.blogPosts, db.userIdentity, db.blogPostIdentity,
                                userToRegister.(id := db.userIdentity));
      var saved := db.SaveNewUser(userToRegister, saveError);
      if saved.Failure? {
        return Failure(GeneralDatabaseException(saved.error, saved.error));
      }
      return Success(saved.value);
    }
  }

  /** The seeded role table has distinct ids, and exactly the ids 1 and 2 pass the role
      check. Since no operation changes the role table, this holds for every store
      reached from a fresh one. */
  lemma SeededRoleCheck(id: int)
    ensures DistinctRoleIds(SeedRoles)
    ensures RetrieveUserRoleById(SeedRoles, id).Some? <==> id == 1 || id == 2
    ensures id == 1 ==> RetrieveUserRoleById(SeedRoles, id) == Some(SeedRoles[0])
    ensures id == 2 ==> RetrieveUserRoleById(SeedRoles, id) == Some(SeedRoles[1])
  {
  }

  /** Register, then log in: the user stored by a successful registration logs in with
      the registration's email and password, and the token is that user's, provided no
      user stored before has an email equal to it up to letter case. */
  lemma RegisteredUserCanLogin(users: seq<User>, request: UserRegisterRequest, role: UserRole, salt: Bytes,
                               hashPassword: Hasher, id: int, jwtService: JwtService, now: int)
    requires forall i :: 0 <= i < |users| ==> !EmailMatches(users[i], request.email)
    ensures var u := NewUser(request, role, salt, hashPassword).(id := id);
            LoginOn(users + [u], hashPassword, jwtService, LoginRequest(request.email, request.password), now)
              == Success(LoginResponse(jwtService.GenerateJwtSecurityTokenFromUser(u, now)))
  {
    var u := NewUser(request, role, salt, hashPassword).(id := id);
    var users' := users + [u];
    assert users'[|users|] == u;
    assert forall i :: 0 <= i < |users| ==> users'[i] == users[i];
    assert EmailMatches(u, request.email);
    var found := RetrieveUserByEmail(users', request.email);
    assert found.Some?;
    var k :| IsFirstEmailMatch(users', request.email, k) && users'[k] == found.value;
    assert k == |users|;
  }

  /** A successful login returns the token of the first user whose email matches; in a
      store whose roles resolve, its claims read back as that user's id, names, email,
      date of birth and role id. */
  lemma LoginTokenIdentity(users: seq<User>, userRoles: seq<UserRole>, hashPassword: Hasher,
                           jwtService: JwtService, request: LoginRequest, now: int)
    requires RolesResolve(users, userRoles)
    requires LoginOn(users, hashPassword, jwtService, request, now).Success?
    ensures exists k ::
              && IsFirstEmailMatch(users, request.email, k)
              && LoginOn(users, hashPassword, jwtService, request, now).value.token
                   == jwtService.writeToken(CreateToken(jwtService.configuration, users[k], now))
              && ReadIdentity(CreateToken(jwtService.configuration, users[k], now).claims)
                   == Some(TokenIdentity(users[k].id, users[k].userName, users[k].email, users[k].firstName,
                                         users[k].lastName, users[k].dateOfBirth, users[k].userRoleId))
  {
    var r := LoginOn(users, hashPassword, jwtService, request, now);
    var k :| IsFirstEmailMatch(users, request.email, k)
             && r.value.token == jwtService.GenerateJwtSecurityTokenFromUser(users[k], now);
    ReadIdentityOfUserClaims(users[k]);
  }

  /** Uniqueness is exact while the login lookup ignores case. Once a user `a` is
      stored, a user `b` whose email differs only by a lower-case first letter (say
      "bob@example.com" after "Bob@example.com") still registers; but logging in with
      b's email finds the earlier user a, so b's own password is refused. */
  lemma CaseVariantEmailShadowed(a: User, b: User, password: string, hashPassword: Hasher,
                                 jwtService: JwtService, now: int)
    requires 1 <= |a.email| == |b.email| && a.email[1..] == b.email[1..]
    requires 'a' <= b.email[0] <= 'z' && a.email[0] == UpperChar(b.email[0])
    requires a.userName != b.userName
    requires b.password == hashPassword(password, b.salt)
    requires hashPassword(password, a.salt) != a.password
    ensures !UserAlreadyRegistered([a], b)
    ensures LoginOn([a, b], hashPassword, jwtService, LoginRequest(b.email, password), now)
              == Failure(InvalidLoginException(InvalidCredentials))
  {
    var x, y := a.email, b.email;
    assert x[0] != y[0];
    assert UpperChar(x[0]) == x[0] == UpperChar(y[0]);
    ToUpperAgreeingTail(x, y);
    assert EmailMatches([a, b][0], y);
    assert RetrieveUserByEmail([a, b], y) == Some(a);
  }

  /** A user who passed the duplicate check keeps emails and usernames unique;
      the check is exact, so only exact repeats are kept out. */
  lemma RegistrationKeepsCredentialsUnique(users: seq<User>, userToRegister: User)
    requires UniqueCredentials(users)
    requires !UserAlreadyRegistered(users, userToRegister)
    ensures UniqueCredentials(users + [userToRegister])
    ensures forall i :: 0 <= i < |users| ==>
              users[i].email != userToRegister.email && users[i].userName != userToRegister.userName
  {
  }

  /** Appending a user does not change how users stored before log in: the lookup
      by email still finds the same, earlier user. */
  lemma RegistrationKeepsEarlierLogins(users: seq<User>, newUser: User, hashPassword: Hasher,
                                       jwtService: JwtService, request: LoginRequest, now: int)
    requires RetrieveUserByEmail(users, request.email).Some?
    ensures LoginOn(users + [newUser], hashPassword, jwtService, request, now)
              == LoginOn(users, hashPassword, jwtService, request, now)
  {
    var users' := users + [newUser];
    assert forall i :: 0 <= i < |users| ==> users'[i] == users[i];
    var found := RetrieveUserByEmail(users, request.email);
    var k :| IsFirstEmailMatch(users, request.email, k) && users[k] == found.value;
    var found' := RetrieveUserByEmail(users', request.email);
    assert IsFirstEmailMatch(users', request.email, k);
    var k' :| IsFirstEmailMatch(users', request.email, k') && users'[k'] == found'.value;
    assert k' == k;
    assert found' == found;
  }

  /** On a fresh database: "alice" registers with role 2 and gets id 1, can then log
      in, and registering her email again under another username is refused. */
  method RegisterTwiceScenario(jwtService: JwtService, hashPassword: Hasher, salt1: Bytes, salt2: Bytes, now: int)
  {
    var db := new BloggyDbContext();
    var service := new UserService(db, jwtService, hashPassword);
    var alice := UserRegisterRequest("alice", "alice@x.com", "longenough1", "Alice", "Liddell", Date(1990, 5, 17), 2);
    var role := SeedRoles[1];
    SeededRoleCheck(2);

    // The first registration passes both checks and is stored under id 1.
    var candidate := NewUser(alice, role, salt1, hashPassword);
    DuplicateCheckPerRow([], [], candidate, candidate);
    var first := service.RegisterUser(alice, salt1, None);
    var stored := candidate.(id := 1);
    assert first == Success(stored);
    assert db.users == [stored];

    // Alice can then log in.
    var login := LoginRequest(alice.email, alice.password);
    RegisteredUserCanLogin([], alice, role, salt1, hashPassword, 1, jwtService, now);
    assert [] + [stored] == db.users;
    assert service.Login(login, now) == Success(LoginResponse(jwtService.GenerateJwtSecurityTokenFromUser(stored, now)));

    // Her email under another username clashes with the stored row and is refused.
    var again := alice.(userName := "alice2");
    DuplicateCheckPerRow([], [], stored, NewUser(again, role, salt2, hashPassword));
    var second := service.RegisterUser(again, salt2, None);
    assert second == Failure(UserAlreadyRegisteredException(UnavailableMessage(again.userName, again.email)));
    assert db.users == [stored];
  }
}
