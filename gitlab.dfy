/**
 * The shapes of the items the GitLab REST API returns, after `json_decode`,
 * restricted to the fields the search code reads. A field that may be
 * missing or null is an Option; PHP's `??` is `GetOr`.
 */
module GitLab {
  import opened Wrappers

  /** A label as `with_labels_details` returns it, or a bare label name. */
  datatype RawLabel =
    | DetailedLabel(name: string, color: Option<string>, textColor: Option<string>)
    | BareLabel(title: string)

  datatype RawIssue = RawIssue(
    id: int,
    iid: int,
    title: string,
    description: Option<string>,
    webUrl: string,
    labels: Option<seq<RawLabel>>,
    state: Option<string>)

  datatype RawWikiPage = RawWikiPage(slug: string, title: string, content: Option<string>)

  /** An issue note; `system` is false when the field is missing. */
  datatype RawNote = RawNote(
    id: int,
    body: Option<string>,
    system: bool,
    authorName: Option<string>,
    createdAt: Option<string>)

  /** What `GET projects/:id` returns, as far as the search reads it. */
  datatype ProjectDetails = ProjectDetails(
    name: string,
    pathWithNamespace: Option<string>,
    path: Option<string>)

  /** An element of the project list (`GET projects`). */
  datatype RawProject = RawProject(
    id: int,
    name: string,
    nameWithNamespace: string,
    webUrl: string,
    pathWithNamespace: string,
    description: Option<string>)

  /** A `wiki_blobs` search hit; every field may be missing. */
  datatype RawWikiBlob = RawWikiBlob(
    title: Option<string>,
    filename: Option<string>,
    slug: Option<string>,
    content: Option<string>,
    data: Option<string>,
    webUrl: Option<string>,
    projectId: Option<int>)

  /**
   * A decoded JSON body: a list of items, or some other JSON value (or
   * `null` when decoding failed).
   */
  datatype Payload<T> = Items(items: seq<T>) | NotAList {
    /** What `foreach` walks: the items, or nothing for a value that is not a list. */
    function List(): seq<T> {
      match this
      case Items(xs) => xs
      case NotAList => []
    }
  }
}
