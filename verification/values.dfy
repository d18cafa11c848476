/** Values shared by the note table, the object store and the note service. */
module Values {

  /** Go strings are byte strings: `len` counts bytes and slicing cuts bytes. */
  newtype byte = b: int | 0 <= b < 256

  type Bytes = seq<byte>

  /** A note's identifier: the text of the uuid the database generated for its row. */
  type NoteId = Bytes

  datatype Option<T> = None | Some(value: T)

  /** The kinds of error the note operations construct; Go's nil error is `None`. */
  datatype Error =
    | ContentIsError      // the content was exactly "error"
    | FilenameNotOk       // the filename failed the filename check
    | NoteAlreadyExists   // a note with the same name is already there
    | QueryFailed         // a statement on the note table failed
    | NotFound            // no row of the note table matched
    | ObjectCallFailed    // a get, put or remove on the object store failed
    | NoteLost            // neither the new nor the old object could be written back
    | RowNotRestored      // the object could not be removed and its row could not be put back

  datatype Result<T> = Success(value: T) | Failure(error: Error)
}
