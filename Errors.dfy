/** What installing-record construction can throw. */
module Errors {

  /** Why a file could not be opened for hashing. */
  datatype AccessCause = NotFound | Denied

  datatype InstallError =
    /** `PathErrorKraken`: a path that had to be relative was rooted. */
    | PathError(path: string, reason: string)
    /** The exception `File.OpenRead` or the read throws, naming the absolute path. */
    | AccessError(path: string, cause: AccessCause)
}
