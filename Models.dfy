/** Bloggy's entity records, request and response records, and its exceptions. */
module Models {
  import opened Dates

  type Bytes = seq<bv8>

  /** A role a user may be given. */
  datatype UserRole = UserRole(id: int, name: string, description: string)

  /** A registered user. `salt` and `password` (the salted hash) are the two columns
      the registration and login code read and write beside the declared properties;
      `userRole` is the navigation property the login query includes. */
  datatype User = User(
    id: int,
    userName: string,
    email: string,
    firstName: string,
    lastName: string,
    dateOfBirth: DateOnly,
    userRoleId: int,
    userRole: UserRole,
    salt: Bytes,
    password: string)

  /** A blog post; `userId` is the author's id (the `User` navigation is the user with that id). */
  datatype BlogPost = BlogPost(id: int, title: string, content: string, datePosted: DateOnly, userId: int)

  datatype UserRegisterRequest = UserRegisterRequest(
    userName: string,
    email: string,
    password: string,
    firstName: string,
    lastName: string,
    dateOfBirth: DateOnly,
    userRoleId: int)

  datatype LoginRequest = LoginRequest(email: string, password: string)

  datatype LoginResponse = LoginResponse(token: string)

  datatype BlogPostSaveRequest = BlogPostSaveRequest(title: string, content: string)

  /** The exceptions the services throw, each with its message. A
      GeneralDatabaseException also keeps the message of the database error it wraps. */
  datatype BloggyException =
    | EntityNotFoundException(message: string)
    | UserAlreadyRegisteredException(message: string)
    | InvalidLoginException(message: string)
    | GeneralDatabaseException(message: string, innerMessage: string)
    | InvalidInputException(message: string)
}
