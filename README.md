# Bloggy accounts and posts, modelled in Dafny

This project models Bloggy's business logic for users and posts. It covers user
registration, login with a signed JSON Web Token, and posting. All of it runs
against an in-memory stand-in for the database's three tables.

- **Store** (`Repositories.dfy`): the class `BloggyDbContext`. It holds the `Users`,
  `UserRoles` and `BlogPosts` tables as sequences in table order, plus the IDENTITY
  counters that give new rows their ids. A fresh context holds the two seeded roles,
  1 `ADMIN` and 2 `USER`. `Valid()` is the table invariant:
  - role, user and post ids are distinct;
  - no two users share an exact email or an exact username;
  - every user's role id names a stored role, and its navigation role is that role;
  - every post's author id names a stored user.
- **User service** (`Users.dfy`):
  - `UserService.RegisterUser` checks that the role exists, builds the user with the
    given salt and its password hash, checks for an exact-match duplicate, then saves.
  - `UserService.Login` (over the pure `LoginOn`) finds the first user whose email matches case-insensitively. It re-hashes
    the password with that user's salt, compares, and issues a token.
  - The queries `RetrieveUserRoleById`, `RetrieveUserByEmail`, `UserAlreadyRegistered`
    and `RetrieveUserById` are functions over the tables. They follow the LINQ calls in
    `Linq.dfy`.
- **Token** (`Jwt.dfy`): the seven claims built from a user, in source order, and the
  token's issuer, audience, expiry (eight hours after issue) and HMAC SHA-256 signing
  credentials. `ReadIdentity` reads the claims back and gives `IdentityOf(user)`: the id, username,
  email, names, date of birth and navigation role id. The salt, the hash and the
  `UserRoleId` column are not in the claims.
- **Blog service** (`Blogs.dfy`): `BlogService.CreateBlogPost` looks up the author by id,
  then appends a post dated with the supplied day.
- **Requests** (`Validation.dfy`): the data-annotation constraints on
  `UserRegisterRequest`, `LoginRequest` and `BlogPostSaveRequest`, as predicates.
- **Framework stand-ins**:
  - `Strings.dfy`: whitespace, ASCII upper-casing, and integer to text and back.
  - `Dates.dfy`: `DateOnly` and the `yyyy-MM-dd` format with its parser.
  - `Linq.dfy`: `FirstOrDefault`.

The model takes as parameters everything that is not deterministic or not in the
repository:
- `PasswordService.HashPassword` is a function value of type `Hasher`, fixed when the
  `UserService` is built.
- The salt from `PasswordService.GenerateSalt` is an argument of `RegisterUser`.
- The clock is an integer `now` in seconds, or a `today` date.
- A `DbUpdateException` raised by `SaveChanges` is an `Option<string>` argument
  `saveError`. `Some(m)` means the save failed with message `m` and nothing was stored.
- `JwtSecurityTokenHandler.WriteToken` is the `writeToken` function held by the
  `JwtService` value.

Exceptions become the `BloggyException` datatype, which has one constructor per
exception class, and results are `Result` values.

On these points the model follows the code:
- Registration checks the role before duplicates.
- The duplicate check compares email and username with `==` as written in C#, that is
  exactly; how the database collation would compare them is under "Left out".
- The role claim is taken from the navigation role.
- No unique index is configured in the context the repository shows
  (Repositories/BloggyDbContext.cs). A comment at Services/UserService.cs:64 expects
  `SaveChanges` to throw if a unique constraint on UserName or Email is triggered. In
  the model, such a constraint could appear only as a `saveError`. Uniqueness in the
  store therefore rests on the service's check alone, and a save failure is always a
  `GeneralDatabaseException`.

## Model

| member | source | states |
|---|---|---|
| `Strings.ToUpper` | Services/UserService.cs:120 | Upper-casing keeps the length and maps each character by its ASCII upper case |
| `Strings.IntToStringRoundTrip` | Services/JwtService.cs:39-43 | The decimal text of an id or role id parses back to the same integer |
| `Strings.IntToStringInjective` | Services/JwtService.cs:43 | Distinct ids have distinct decimal texts |
| `Strings.ZeroPadValue` | Services/JwtService.cs:37 | A zero-padded field of a date loses no digits when the value fits the width |
| `Dates.ToIsoString` | Services/JwtService.cs:37 | `yyyy-MM-dd` text is ten characters: four digits, '-', two digits, '-', two digits |
| `Dates.ParseIsoDate` | Services/JwtService.cs:37 | Whatever the parser accepts formats back to the exact same text |
| `Dates.IsoRoundTrip` | Services/JwtService.cs:37 | Parsing the `yyyy-MM-dd` text of a date gives the date back |
| `Dates.IsoInjective` | Services/JwtService.cs:37 | Distinct dates of birth give distinct claim texts |
| `Linq.FirstIndex` | Services/UserService.cs:118-120 | The index found is the first that satisfies the condition, or the length when none does |
| `Linq.FirstOrDefault` | Services/UserService.cs:140 | None exactly when no row matches; otherwise the first matching row in table order |
| `Validation.Required` | Models/UserRegisterRequest.cs:7-28 | A [Required] string holds exactly when some character is not whitespace, so never on the empty string |
| `Validation.IsEmail` | Models/UserRegisterRequest.cs:12-13 | An accepted address has at least three characters and an '@' that is neither first nor last |
| `Validation.EmailExamples` | Models/LoginRequest.cs:10-11 | "a@b" and "alice@x.com" are accepted; "", "ab", "@b", "a@" and "a@@b" are rejected |
| `Validation.RegisterRequestEachFieldChecked` | Models/UserRegisterRequest.cs:5-35 | In a valid registration request, a one-character username, an address without '@', a seven-character password, a blank first name or a 101-character last name each make it invalid |
| `Validation.LoginRequestEachFieldChecked` | Models/LoginRequest.cs:8-17 | In a valid login request, an address ending in '@', a seven-character password or an all-space password each make it invalid |
| `Validation.BlogPostRequestEachFieldChecked` | Models/BlogPostSaveRequest.cs:9-19 | In a valid post request, an empty or 256-character title, or whitespace-only or 4097-character content, each make it invalid |
| `Validation.RegisterRequestBoundaries` | Models/UserRegisterRequest.cs:7-29 | Username 1 and 65 rejected, 2 and 64 accepted; password 7 and 257 rejected, 8 and 256 accepted; names 0 and 101 rejected, 1 and 100 accepted |
| `Validation.LoginRequestBoundaries` | Models/LoginRequest.cs:14-16 | Login password 7 rejected, 8 and every longer length accepted |
| `Validation.BlogPostRequestBoundaries` | Models/BlogPostSaveRequest.cs:11-19 | Title 255 accepted and 256 rejected, content 4096 accepted and 4097 rejected, empty rejected |
| `Validation.WhitespaceOnlyRejected` | Models/UserRegisterRequest.cs:7-29 | A whitespace-only value fails every [Required] string field of the three requests |
| `Validation.RegisterPasswordIsLoginPassword` | Models/LoginRequest.cs:14-16 | Every registration-valid password is login-valid; a 257-character one is login-valid only |
| `Validation.RoleIdAndBirthDateUnchecked` | Models/UserRegisterRequest.cs:31-35 | Changing the role id or date of birth never changes the request's validity |
| `Repositories.BloggyDbContext.constructor` | Repositories/BloggyDbContext.cs:44-47 | A fresh store holds exactly the seeded roles, no users, no posts, and is valid |
| `Repositories.BloggyDbContext.SaveNewUser` | Services/UserService.cs:67-75 | A failed save stores nothing; a successful one appends the user under the next id and changes no other table |
| `Repositories.BloggyDbContext.SaveNewBlogPost` | Services/BlogService.cs:55-61 | A failed save stores nothing; a successful one appends the post under the next id and changes no other table |
| `Repositories.InsertUserKeepsConsistent` | Services/UserService.cs:37-70 | Appending a non-clashing user whose role is stored keeps uniqueness and referential integrity |
| `Repositories.InsertPostKeepsConsistent` | Services/BlogService.cs:36-57 | Appending a post whose author is stored keeps every post's author resolvable |
| `Jwt.UserClaims` | Services/JwtService.cs:36-44 | Seven claims, typed dateOfBirth, email, userRoleId, firstName, lastName, userName, id in that order; looking up each type finds the user's text field unchanged, or its ids and date of birth as text |
| `Jwt.ReadIdentityOfUserClaims` | Services/JwtService.cs:36-44 | Reading the claims back gives the user's id, names, email, date of birth and navigation role id |
| `Jwt.CreateToken` | Services/JwtService.cs:52-68 | Configured issuer and audience, the user's claims, the configured key with HS256; unexpired at every moment of the eight hours after issue and expired from then on |
| `Jwt.GeneratedTokenCarriesIdentityOnly` | Services/JwtService.cs:32-71 | Users with the same id, names, email, date of birth and navigation role id get the same token, whatever their salt, hash or UserRoleId column, and the token's claims read back to that identity |
| `Users.RetrieveUserRoleById` | Services/UserService.cs:138-141 | None exactly when no stored role has the id; otherwise a stored role with that id |
| `Users.RetrieveUserByEmail` | Services/UserService.cs:116-121 | None exactly when no email matches up to letter case; otherwise the first matching user in table order |
| `Users.RetrieveUserById` | Services/BlogService.cs:36 | None exactly when no stored user has the id; otherwise a stored user with that id |
| `Users.LoginOn` | Services/UserService.cs:84-114 | Succeeds exactly when the first email match's stored hash equals the hash of the password with its salt, returning that user's token; every failure is InvalidLogin "Credentials were invalid." |
| `Users.DuplicateCheckPerRow` | Services/UserService.cs:128-131 | The duplicate check is false on an empty table, true on one row exactly when the email or the username is the same, and on a table split in two exactly when it is true on either part |
| `Users.NewUser` | Services/UserService.cs:44-60 | The user built for saving carries the request's username, email, names, date of birth and role id, the found role and the salt, and its stored hash is what the login check computes for the request's password |
| `Users.UserService.Login` | Services/UserService.cs:84-114 | Over the service's own Users table, hasher and token service: succeeds exactly when the first email match's stored hash equals the hash of the password with its salt, returning that user's token; every failure is InvalidLogin "Credentials were invalid." |
| `Users.UserService.constructor` | Services/UserService.cs:22-26 | The service holds the given context, token service and password hasher |
| `Users.UserService.RegisterUser` | Services/UserService.cs:33-82 | Unknown role gives EntityNotFound and wins over duplicates; an exact duplicate gives UserAlreadyRegistered; a save failure gives GeneralDatabase; all three leave the store unchanged. Otherwise exactly one user is appended with the request's fields, the role, the salt and the hash. Roles and posts never change, and validity is kept |
| `Users.SeededRoleCheck` | Repositories/BloggyDbContext.cs:44-47 | The seeded role ids are distinct, and only ids 1 and 2 pass the role check |
| `Users.RegisteredUserCanLogin` | Services/UserService.cs:45-107 | After a registration, logging in with its email and password yields the new user's token, provided no earlier email is equal up to case |
| `Users.LoginTokenIdentity` | Services/UserService.cs:102-107 | A successful login's token is the matched user's, and its claims read back to that user's id, username and role id |
| `Users.CaseVariantEmailShadowed` | Services/UserService.cs:116-131 | A later user whose email differs from a stored one only by a lower-case first letter passes the exact duplicate check, but logging in with that email finds the earlier user and refuses the later user's password |
| `Users.RegistrationKeepsCredentialsUnique` | Services/UserService.cs:128-131 | A user who passes the duplicate check keeps exact emails and usernames unique |
| `Users.RegistrationKeepsEarlierLogins` | Services/UserService.cs:116-121 | Appending a user leaves the login result of every email that already matched unchanged |
| `Blogs.BlogService.constructor` | Services/BlogService.cs:23-26 | The service holds the given context; the `UserService` it is also given is dropped, and `CreateBlogPost` calls `Users.RetrieveUserById` directly |
| `Blogs.BlogService.CreateBlogPost` | Services/BlogService.cs:34-62 | Unknown author id gives EntityNotFound and stores nothing. A save failure gives GeneralDatabase and stores nothing. Otherwise exactly one post is appended with the request's title and content, the author's id and today's date. Users and roles never change, and validity is kept |

## Left out

- Controllers and `Program.cs` are not modelled. They only route HTTP requests and
  throw `InvalidInputException` when validation fails; the request predicates and the
  `InvalidInputException` constructor stand for that. `JwtService.GetUserIdFromHttpContext`
  is not part of this model.
- `PasswordService` is not part of this model. Hashing is an arbitrary deterministic
  function, and no one-wayness or collision resistance is claimed. Nothing says that the
  stored hash differs from the plaintext.
- JWT serialisation and signing (`JwtSecurityTokenHandler.WriteToken`, base64url, the
  HMAC computation) are the abstract `writeToken` function. Only the token's contents
  are modelled.
- The `Jwt:Key`, `Jwt:Issuer` and `Jwt:Audience` configuration entries are assumed
  present. `JwtConfiguration` holds plain strings, so it cannot express a missing entry.
  A missing `Jwt:Key` makes `Encoding.UTF8.GetBytes` throw at Services/JwtService.cs:52,
  so a login with the correct password would throw instead of returning a token.
- The constant-time comparison of the hashes is not modelled. The source compares them
  with ordinary string equality, and so does the model.
- Clocks are integer arguments. Time zones, the local-to-UTC conversion of the expiry,
  and the validating side's clock skew are not modelled.
- `ToUpper` covers ASCII letters only. Culture-specific upper-casing is not modelled.
- Other culture-dependent formatting is fixed to the invariant culture and the Gregorian
  calendar: the `yyyy-MM-dd` date of birth claim (Services/JwtService.cs:37), the
  negative sign of `Int32.ToString` for the id claims (Services/JwtService.cs:39, 43),
  and the ids written into error messages (Services/UserService.cs:81,
  Services/BlogService.cs:42). A server culture with another calendar or sign would
  produce other text.
- String lengths count Dafny characters (Unicode scalar values), while .NET counts
  UTF-16 code units. A string with characters outside the Basic Multilingual Plane has
  a different length in the two.
- An absent (null) request string is represented by `""`. Both fail `[Required]`, so
  validity is unaffected.
- `Validation.IsEmail`: `[EmailAddress]` is framework code the repository does not
  contain. The model uses the framework's rule: exactly one `@`, which is neither the
  first nor the last character. No property of the services depends on it. The
  properties that do depend on it are `IsEmail`'s own ensures, `Validation.EmailExamples`,
  the `email := "ab"` clause of `Validation.RegisterRequestEachFieldChecked`, and the
  `email := "a@"` clause of `Validation.LoginRequestEachFieldChecked`.
- Integers are unbounded. The 32-bit overflow of ids and of the IDENTITY counters is not
  modelled.
- The queries run in memory with C# semantics, not as SQL on SQL Server:
  - `==` on emails and usernames is an exact, ordinal comparison. In the database it
    follows the column collation, which on SQL Server is case-insensitive by default
    (Repositories/BloggyDbContext.cs:30 selects SQL Server). Under such a collation the
    duplicate check would also refuse a case variant of a stored email, and
    `Users.CaseVariantEmailShadowed` does not describe the deployed program.
  - `FirstOrDefault` returns the first match in insertion order. SQL without an
    `ORDER BY` has no defined order, so the model fixes one possible choice.
  - The id counters never skip: `SaveNewUser` and `SaveNewBlogPost` keep them on a
    failed save, while a failed SQL Server insert can consume an IDENTITY value. The
    model's ids are therefore one possible numbering; only their distinctness is meant.
- The model is sequential. The race between the duplicate check and the save cannot
  arise in it. A failing save is the `saveError` argument, not a constraint violation.
- The EF navigation collections `User.BlogPosts` and `UserRole.Users` are not modelled,
  nor is `BlogPost.User`, which is the user with the post's `UserId`. The SQL Server
  connection, logging and detailed-error configuration are not modelled either.
