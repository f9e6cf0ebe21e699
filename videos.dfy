/** The video records the search API returns and the history stores. */
module Videos {
  import opened Wrappers

  /** The part of a record's `snippet` that filtering reads. */
  datatype Snippet = Snippet(title: string, description: string)

  /**
   * A video record. `id` stands for the nested `id.videoId`: None when the
   * record has no `id` or its `id` has no `videoId`.
   */
  datatype Video = Video(id: Option<string>, snippet: Snippet)

  /** The record carries a usable identifier (an empty `videoId` is falsy in JavaScript). */
  predicate HasId(v: Video) {
    v.id.Some? && v.id.value != ""
  }
}
