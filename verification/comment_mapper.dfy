/** Conversions between a comment and its transfer object. */
module CommentMapper {
  import opened Model

  /** A comment with the payload's id, text and timestamp, on `item` by
      `author`. */
  function ToComment(d: CommentDto, item: Item, author: User): (c: Comment)
    ensures c.id == d.id && c.text == d.text && c.created == d.created
    ensures c.item == item && c.author == author
  {
    Comment(d.id, d.text, d.created, item, author)
  }

  /** The comment as shown: the author is reduced to their name. */
  function ToCommentDto(c: Comment): (d: CommentDto)
    ensures d.id == c.id && d.text == c.text && d.created == c.created
    ensures d.authorName == c.author.name
  {
    CommentDto(c.id, c.text, c.author.name, c.created)
  }

  /** A payload survives the trip through a comment, except that the author
      name is now the author's. */
  lemma CommentRoundTrip(d: CommentDto, item: Item, author: User)
    ensures ToCommentDto(ToComment(d, item, author)) == d.(authorName := author.name)
  {
  }
}
