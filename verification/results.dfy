/** Failure-carrying values shared by every part of the vault engine. */
module Results {

  datatype Option<+T> = None | Some(value: T)
  {
    /** The carried value, or `default` when there is none. */
    function GetOr(default: T): T
    {
      match this
      case Some(v) => v
      case None => default
    }
  }

  /**
   * The exceptions the engine lets escape to its caller, one constructor per
   * kind of failure.
   */
  datatype VaultError =
    | FileNotFound      // ValueError "File not found in metadata."
    | NoVersions        // IndexError: the history has no version to pick as latest
    | UnknownVersion    // KeyError: the requested version key is absent
    | MalformedEntry    // TypeError/AttributeError/KeyError on a document the engine did not write
    | BadKey            // ValueError from the cipher: the key is not 32 base64url-encoded bytes
    | MissingArtefact   // the encrypted file named by the record cannot be opened
    | InvalidToken      // the cipher refused the token (wrong key or modified token)
    | HashMismatch      // ValueError "File hash mismatch! Possible tampering."

  datatype Result<+T> = Ok(value: T) | Err(error: VaultError)
}
