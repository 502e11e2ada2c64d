/** Error kinds and the failure-compatible wrappers shared by every component.
    There is one `Error` constructor per failure the codec can raise, whether
    by its own `raise` or through a library exception, so a caller can tell
    the failures apart the way the messages do. The two decrypt failures that
    cannot occur for an in-memory blob have none. `FilenameTooLong` is the
    rejection the corrected header builder adds; the codec itself has no such
    check. */
module Results {

  datatype Error =
    /** `to_bytes` raised OverflowError: a header field does not fit its width. */
    | FieldOverflow
    /** The filename's UTF-8 encoding is longer than the 255-byte field
        (raised by the corrected header builder only). */
    | FilenameTooLong
    /** "Cover audio is too small.": header + payload bits exceed the frames. */
    | CoverTooSmall
    /** "Stego file is too small.": fewer frames than header bits. */
    | StegoTooSmall
    /** The stored filename is not well-formed UTF-8 (`decode` raised). */
    | FilenameNotUtf8
    /** "File corrupted.": the payload size points past the last frame. */
    | FileCorrupted
    /** The encrypted blob is shorter than header + tag. */
    | BlobTooSmall
    /** The encrypted blob does not start with the magic constant. */
    | BadMagic
    /** The tag does not match: wrong passphrase or tampered data. */
    | AuthenticationFailed
    /** `zlib.decompress` rejected the stream. */
    | DecompressFailed

  datatype Option<+T> = None | Some(value: T)

  datatype Result<+T> = Success(value: T) | Failure(error: Error) {

    predicate IsFailure() {
      Failure?
    }

    function PropagateFailure<U>(): Result<U>
      requires Failure?
    {
      Failure(error)
    }

    function Extract(): T
      requires Success?
    {
      value
    }
  }
}
