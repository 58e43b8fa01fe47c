/** The draft filter for blog posts. `isDev` stands for the build mode test
    `import.meta.env.MODE === "development"`. */
module Common {
  import opened Lists
  import opened Content

  /** `filterPostByDraft`: every post passes in development; otherwise a post is
      rejected exactly when its `draft` flag is `true`. */
  predicate FilterPostByDraft(isDev: bool, post: Post)
  {
    isDev || !(post.draft == Some(true))
  }

  /** The filter as the callback handed to `Array.prototype.filter`. */
  function PostFilter(isDev: bool): Post -> bool
  {
    p => FilterPostByDraft(isDev, p)
  }

  lemma DevKeepsEveryPost(post: Post)
    ensures FilterPostByDraft(true, post)
  {
  }

  /** Outside development the verdict is "not a draft", with an absent flag read as `false`. */
  lemma ProductionRejectsExactlyDrafts(post: Post)
    ensures FilterPostByDraft(false, post) <==> post.draft == None || post.draft == Some(false)
  {
    match post.draft
    case None =>
    case Some(b) => assert b || post.draft == Some(false);
  }

  /** Only the mode flag and the `draft` field matter. */
  lemma DependsOnlyOnDraft(isDev: bool, p: Post, q: Post)
    requires p.draft == q.draft
    ensures FilterPostByDraft(isDev, p) == FilterPostByDraft(isDev, q)
  {
  }
}
