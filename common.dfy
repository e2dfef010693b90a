/** Types shared by every module of the fixity-inventory model. */
module Common {

  /** The name of one directory entry (a file or a sub-directory). */
  type Name = string

  /** A hex-encoded SHA-256 digest, as stored in an inventory's file map. */
  type Digest = string

  /**
   * A directory's logical path: its components below the file-system base path.
   * The base itself is the empty path.
   */
  type Path = seq<Name>

  /** The text `datetime.isoformat()` produces: "YYYY-MM-DDTHH:MM:SS" and possibly more. */
  predicate IsIsoText(s: string)
  {
    |s| >= 19 && s[4] == '-' && s[7] == '-' && s[10] == 'T' && s[13] == ':' && s[16] == ':'
  }

  /** A timestamp, kept in its ISO-8601 form (formatting and parsing are the identity here). */
  type Timestamp = s: string | IsIsoText(s) witness "1970-01-01T00:00:00"

  datatype Option<+T> = None | Some(value: T)

  datatype Result<+T, +E> = Ok(value: T) | Err(error: E)
}
