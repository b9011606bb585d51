/** Values shared by the upload model: optional values, the errors with which
    `upload` bails, and a result type carrying either a value or such an error. */
module Outcomes {

  datatype Option<+T> = None | Some(value: T)

  /** The ways `Upload::execute` can end early.  Each constructor is one kind
      of exit; `ServerError` and `BodyUnreadable` each stand for several sites
      of the command, one per phase. */
  datatype UploadError =
    | InvalidGitRepository      // `git remote -v` failed or printed nothing
    | InvalidRemoteUrl          // a github.com remote line without exactly three fields
    | ManifestUnreadable        // `Move.toml` could not be read (the command panics)
    | DocDirUnreadable          // the `doc` directory could not be listed (`?`)
    | BodyUnreadable            // `response.text()?` failed while reading a reply
    | ClientError(body: string) // a 4xx reply; the message is the reply body
    | ServerError               // a 5xx reply or no reply at all

  datatype Result<+T> = Ok(value: T) | Err(error: UploadError)

  const TryAgainLater: string := "An unexpected error occurred. Please try again later"

  /** Whether the text printed for `e` is fixed by the command itself rather than
      produced by the I/O or HTTP library. */
  predicate HasOwnMessage(e: UploadError)
  {
    !e.DocDirUnreadable? && !e.BodyUnreadable?
  }

  /** The text the command attaches to `e`.  For the `bail!` errors this is the
      message printed before the command exits with status 1; for
      `ManifestUnreadable` it is the `expect` text of a panic, which also
      carries the I/O error and ends the process with status 101. */
  function Message(e: UploadError): string
    requires HasOwnMessage(e)
  {
    match e
    case InvalidGitRepository => "invalid git repository"
    case InvalidRemoteUrl => "invalid remote url"
    case ManifestUnreadable => "Unable to read Move.toml"
    case ClientError(body) => body
    case ServerError => TryAgainLater
  }
}
