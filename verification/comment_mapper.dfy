/**
 * Projections between comments and their transfer objects
 * (`comment.mapper.CommentMapper`, server copy).
 */
module CommentMapper {
  import opened Wrappers
  import opened Domain

  /** `author` is the comment's author row. */
  predicate WrittenBy(c: Comment, author: User) {
    author.id == c.authorId
  }

  /** The reply for a comment: the author is shown by name. */
  function ToCommentDto(c: Comment, author: User): (d: CommentDto)
    requires WrittenBy(c, author)
    ensures d.id == c.id && d.text == c.text && d.created == Some(c.created)
    ensures d.authorName == author.name
  {
    CommentDto(c.id, c.text, Some(c.created), author.name)
  }

  /**
   * A comment by `user` on `item`. The builder sets `created` twice, first
   * from the request and then from the argument, so the request's timestamp
   * never reaches the comment.
   */
  function ToComment(user: User, item: Item, d: CommentDto, created: int): (c: Comment)
    requires item.id.Some?
    ensures c.id == d.id && c.text == d.text && c.created == created
    ensures c.authorId == user.id && Some(c.itemId) == item.id
  {
    Comment(d.id, d.text, created, user.id, item.id.value)
  }

  /**
   * The reply for a comment built from a request carries the request's id
   * and text, the creation time the service supplied, and the author's
   * name: whatever `created` the request carried is gone.
   */
  lemma CommentRoundTrip(user: User, item: Item, d: CommentDto, created: int)
    requires item.id.Some?
    ensures ToCommentDto(ToComment(user, item, d, created), user)
            == CommentDto(d.id, d.text, Some(created), user.name)
  {
  }
}
