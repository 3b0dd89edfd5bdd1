/** The tool's error type: a git failure, or a name that is not UTF-8. */
module Errors {
  import opened Git2

  datatype Error =
    | Git(git: GitError)
      /** `str::Utf8Error`, reduced to `valid_up_to`, the length of the valid prefix. */
    | Utf8Error(validUpTo: nat)
}
