/** The two content collections the utilities work on: blog posts and books.
    Only the frontmatter fields the utilities read are kept; `pubDatetime` is the
    date as a count of milliseconds since the epoch (`Date.getTime()`). */
module Content {
  import opened Lists

  datatype Post = Post(id: string, pubDatetime: int, draft: Option<bool>, tags: seq<string>)

  /** The `status` enumeration; the schema's default is `Completed`. */
  datatype Status = Reading | ToRead | Completed

  /** `rating` is an optional number between 1 and 5, not necessarily whole. */
  datatype Book = Book(id: string, pubDatetime: int, rating: Option<real>, status: Status,
                       draft: Option<bool>, tags: seq<string>)
}
