/** The database context: the Users, UserRoles and BlogPosts tables, held in memory
    as sequences in table order, with the IDENTITY counters that give new rows their ids. */
module Repositories {
  import opened Wrappers
  import opened Models

  /** The two roles the model builder seeds. */
  const SeedRoles: seq<UserRole> := [
    UserRole(1, "ADMIN", "User Role designating elevated administrative priveleges."),
    UserRole(2, "USER", "User Role designating regular priveleges.")
  ]

  /** Two users clash when they share an email or a username, compared exactly. */
  predicate Clashes(a: User, b: User) {
    a.email == b.email || a.userName == b.userName
  }

  /** No two users share an email and no two share a username. */
  predicate UniqueCredentials(users: seq<User>) {
    forall i, j :: 0 <= i < j < |users| ==> !Clashes(users[i], users[j])
  }

  predicate DistinctRoleIds(userRoles: seq<UserRole>) {
    forall i, j :: 0 <= i < j < |userRoles| ==> userRoles[i].id != userRoles[j].id
  }

  predicate DistinctUserIds(users: seq<User>) {
    forall i, j :: 0 <= i < j < |users| ==> users[i].id != users[j].id
  }

  predicate DistinctPostIds(blogPosts: seq<BlogPost>) {
    forall i, j :: 0 <= i < j < |blogPosts| ==> blogPosts[i].id != blogPosts[j].id
  }

  /** Every user's role id names a stored role, and its navigation role is that role. */
  predicate RolesResolve(users: seq<User>, userRoles: seq<UserRole>) {
    forall i :: 0 <= i < |users| ==> users[i].userRole in userRoles && users[i].userRole.id == users[i].userRoleId
  }

  predicate IsUserId(users: seq<User>, id: int) {
    exists j :: 0 <= j < |users| && users[j].id == id
  }

  /** Every post's author id names a stored user. */
  predicate AuthorsResolve(blogPosts: seq<BlogPost>, users: seq<User>) {
    forall i :: 0 <= i < |blogPosts| ==> IsUserId(users, blogPosts[i].userId)
  }

  /** The invariant of the three tables and the two identity counters. */
  predicate Consistent(users: seq<User>, userRoles: seq<UserRole>, blogPosts: seq<BlogPost>,
                       userIdentity: int, blogPostIdentity: int)
  {
    && DistinctRoleIds(userRoles)
    && DistinctUserIds(users)
    && (forall i :: 0 <= i < |users| ==> users[i].id < userIdentity)
    && UniqueCredentials(users)
    && RolesResolve(users, userRoles)
    && DistinctPostIds(blogPosts)
    && (forall i :: 0 <= i < |blogPosts| ==> blogPosts[i].id < blogPostIdentity)
    && AuthorsResolve(blogPosts, users)
  }

  /** Inserting a user who clashes with nobody and whose role is stored, under the next
      identity value, keeps the tables consistent. */
  lemma InsertUserKeepsConsistent(users: seq<User>, userRoles: seq<UserRole>, blogPosts: seq<BlogPost>,
                                  userIdentity: int, blogPostIdentity: int, u: User)
    requires Consistent(users, userRoles, blogPosts, userIdentity, blogPostIdentity)
    requires forall i :: 0 <= i < |users| ==> !Clashes(users[i], u)
    requires u.userRole in userRoles && u.userRole.id == u.userRoleId
    requires u.id == userIdentity
    ensures Consistent(users + [u], userRoles, blogPosts, userIdentity + 1, blogPostIdentity)
  {
    var users' := users + [u];
    assert forall i :: 0 <= i < |users| ==> users'[i] == users[i];
    forall i | 0 <= i < |blogPosts|
      ensures IsUserId(users', blogPosts[i].userId)
    {
      var j :| 0 <= j < |users| && users[j].id == blogPosts[i].userId;
      assert users'[j] == users[j];
    }
  }

  /** Inserting a post by a stored user under the next identity value keeps the tables consistent. */
  lemma InsertPostKeepsConsistent(users: seq<User>, userRoles: seq<UserRole>, blogPosts: seq<BlogPost>,
                                  userIdentity: int, blogPostIdentity: int, p: BlogPost)
    requires Consistent(users, userRoles, blogPosts, userIdentity, blogPostIdentity)
    requires IsUserId(users, p.userId)
    requires p.id == blogPostIdentity
    ensures Consistent(users, userRoles, blogPosts + [p], userIdentity, blogPostIdentity + 1)
  {
  }

  class BloggyDbContext {
    var users: seq<User>
    var userRoles: seq<UserRole>
    var blogPosts: seq<BlogPost>
    /** The ids the database will give the next user and the next post. */
    var userIdentity: int
    var blogPostIdentity: int

    ghost predicate Valid()
      reads this
    {
      Consistent(users, userRoles, blogPosts, userIdentity, blogPostIdentity)
    }

    /** A fresh database: the seeded roles, no users, no posts. */
    constructor ()
      ensures Valid()
      ensures userRoles == SeedRoles && users == [] && blogPosts == []
      ensures userIdentity == 1 && blogPostIdentity == 1
    {
      users := [];
      userRoles := SeedRoles;
      blogPosts := [];
      userIdentity := 1;
      blogPostIdentity := 1;
    }

    /** Users.Add(u) followed by SaveChanges(). `saveError` stands for the
        DbUpdateException SaveChanges may raise (with its message); then nothing is stored.
        Otherwise the row is stored under the next identity value. */
    method SaveNewUser(u: User, saveError: Option<string>) returns (r: Result<User, string>)
      modifies this
      ensures saveError.Some? ==> r == Failure(saveError.value) && unchanged(this)
      ensures saveError.None? ==> r == Success(u.(id := old(userIdentity)))
      ensures saveError.None? ==> users == old(users) + [r.value] && userIdentity == old(userIdentity) + 1
      ensures saveError.None? ==> userRoles == old(userRoles) && blogPosts == old(blogPosts)
                                  && blogPostIdentity == old(blogPostIdentity)
    {
      if saveError.Some? {
        return Failure(saveError.value);
      }
      var saved := u.(id := userIdentity);
      users := users + [saved];
      userIdentity := userIdentity + 1;
      return Success(saved);
    }

    /** BlogPosts.Add(p) followed by SaveChanges(), as SaveNewUser. */
    method SaveNewBlogPost(p: BlogPost, saveError: Option<string>) returns (r: Result<BlogPost, string>)
      modifies this
      ensures saveError.Some? ==> r == Failure(saveError.value) && unchanged(this)
      ensures saveError.None? ==> r == Success(p.(id := old(blogPostIdentity)))
      ensures saveError.None? ==> blogPosts == old(blogPosts) + [r.value]
                                  && blogPostIdentity == old(blogPostIdentity) + 1
      ensures saveError.None? ==> users == old(users) && userRoles == old(userRoles)
                                  && userIdentity == old(userIdentity)
    {
      if saveError.Some? {
        return Failure(saveError.value);
      }
      var saved := p.(id := blogPostIdentity);
      blogPosts := blogPosts + [saved];
      blogPostIdentity := blogPostIdentity + 1;
      return Success(saved);
    }
  }
}
