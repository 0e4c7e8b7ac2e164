/** The parts of an `app.bsky.feed.post` record that the model keeps. */
module Records {
  import opened Wrappers

  /** A strong reference `{cid, uri}`, as `create_record` returns it for a created post. */
  datatype Ref = Ref(cid: string, uri: string)

  /** The `reply` field: the first post of the thread and the post replied to. */
  datatype ReplyRef = ReplyRef(root: Ref, parent: Ref)

  /**
   * A post: its text, the file name of the attached image (also its alt
   * text), and its reply field. Timestamps, languages and facets are not
   * kept.
   */
  datatype Post = Post(text: string, image: Option<string>, reply: Option<ReplyRef>)
}
