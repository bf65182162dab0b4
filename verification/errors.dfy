/**
 * The failures the core reports. The source carries every one of them as an
 * `anyhow::Error` built from a message; here each message shape is a variant
 * that keeps the values the message interpolates.
 */
module Errors {

  datatype Error =
      /** The HTTP client could not send a request or read its body. */
    | SendFailed(reason: string)
      /** "Request failed with status code {status}: {body}" (graphql.rs, cache.rs). */
    | StatusFailed(status: int, body: string)
      /** A response body that does not decode into the expected JSON shape. */
    | ParseFailed(body: string)
      /** "Cursor hash not found for {end_cursor}" (never produced, see Commits.Cursor). */
    | CursorNotFound(endCursor: string)
      /** "Error parsing last commit or cursor for {repo}: ..." */
    | LastCommitOrCursorUnparsable(repo: string, body: string)
      /** "Error parsing last commit: ..." */
    | LastCommitUnparsable(body: string)
      /** "Error getting first commit: {cause}" (the collector in the web front end). */
    | FirstCommitFailed(cause: Error)
}
