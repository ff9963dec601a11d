/** The blog service: creating a post for the signed-on user. */
module Blogs {
  import opened Wrappers
  import opened Strings
  import opened Dates
  import opened Models
  import opened Repositories
  import Users

  function UserNotFoundMessage(userId: int): string {
    "User with ID " + IntToString(userId) + " was not found."
  }

  const SaveFailedMessage: string := "An error occurred when attempting to save a blog post."

  class BlogService {
    const db: BloggyDbContext

    constructor (db: BloggyDbContext)
      ensures this.db == db
    {
      this.db := db;
    }

    /** Saves a post by the user with id `userId`. `today` is DateTime.Today's date;
        `saveError` is the DbUpdateException SaveChanges may raise. */
    method CreateBlogPost(request: BlogPostSaveRequest, userId: int, today: DateOnly, saveError: Option<string>)
      returns (r: Result<BlogPost, BloggyException>)
      requires db.Valid()
      modifies db
      ensures db.Valid()
      ensures db.users == old(db.users) && db.userRoles == old(db.userRoles)
      ensures db.userIdentity == old(db.userIdentity)
      ensures !IsUserId(old(db.users), userId) ==>
                r == Failure(EntityNotFoundException(UserNotFoundMessage(userId))) && unchanged(db)
      ensures IsUserId(old(db.users), userId) && saveError.Some? ==>
                r == Failure(GeneralDatabaseException(SaveFailedMessage, saveError.value)) && unchanged(db)
      ensures IsUserId(old(db.users), userId) && saveError.None? ==>
                && r == Success(BlogPost(old(db.blogPostIdentity), request.title, request.content, today, userId))
                && db.blogPosts == old(db.blogPosts) + [r.value]
                && db.blogPostIdentity == old(db.blogPostIdentity) + 1
      ensures r.Success? ==> IsUserId(db.users, r.value.userId)
    {
      var userForBlogPost := Users.RetrieveUserById(db.users, userId);
      if userForBlogPost.None? {
        return Failure(EntityNotFoundException(UserNotFoundMessage(userId)));
      }
      var blogPostToCreate := BlogPost(0, request.title, request.content, today, userForBlogPost.value.id);
      InsertPostKeepsConsistent(db.users, db.userRoles, db.blogPosts, db.userIdentity, db.blogPostIdentity,
                                blogPostToCreate.(id := db.blogPostIdentity));
      var saved := db.SaveNewBlogPost(blogPostToCreate, saveError);
      if saved.Failure? {
        return Failure(GeneralDatabaseException(SaveFailedMessage, saved.error));
      }
      return Success(saved.value);
    }
  }
}
