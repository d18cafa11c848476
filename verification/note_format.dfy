/**
 * The pure parts of the note code: the filename check, the preview of a note's
 * content, the outcome of an edit and its message, and the assembled note.
 */
module NoteFormat {
  import opened Values

  /** Longest object name the object store accepts, in bytes. */
  const FilenameMaxLen := 1024

  const Nul: byte := 0
  const Slash: byte := 47             // '/'
  const Dot: Bytes := [46]            // "."
  const DotDot: Bytes := [46, 46]     // ".."

  /**
   * A filename is usable when it has no NUL byte and no '/', is not "." or "..",
   * and is at most 1024 bytes long. Looking for the runes U+0000 and '/' in a Go
   * string is the same as looking for the bytes 0 and 47: in UTF-8 those bytes
   * never occur inside a longer sequence, and a stray byte decodes as the
   * replacement character, not as either rune.
   */
  function IsFilenameOk(filename: Bytes): (ok: bool)
    ensures ok <==>
      (forall i :: 0 <= i < |filename| ==> filename[i] != Nul && filename[i] != Slash)
      && filename != Dot && filename != DotDot && |filename| <= FilenameMaxLen
  {
    var containsNul := Nul in filename;
    var containsSlash := Slash in filename;
    var isDotOrDotDot := filename == Dot || filename == DotDot;
    var isLongerThanAllowed := |filename| > FilenameMaxLen;
    !containsNul && !containsSlash && !isLongerThanAllowed && !isDotOrDotDot
  }

  /** The names the check must turn away and the edge cases it must let through. */
  lemma FilenameExamples(longest: Bytes)
    requires |longest| == FilenameMaxLen
    requires forall i :: 0 <= i < |longest| ==> longest[i] == 97
    ensures IsFilenameOk(longest) && !IsFilenameOk(longest + [97])
    ensures IsFilenameOk([])
    ensures !IsFilenameOk([97, Slash, 98])    // "a/b"
    ensures !IsFilenameOk([Nul])
    ensures !IsFilenameOk(Dot) && !IsFilenameOk(DotDot)
    ensures IsFilenameOk([46, 46, 46])        // "..." is an ordinary name
  {
    assert (longest + [97])[FilenameMaxLen] == 97;
    assert [97, Slash, 98][1] == Slash;
    assert [Nul][0] == Nul;
  }

  /** Content of this many bytes or more is shortened for the preview. */
  const ShortenFrom := 25
  /** How many bytes of the content a shortened preview keeps. */
  const PreviewPrefixLen := 21
  const Ellipsis: Bytes := [46, 46, 46]   // "..."

  /**
   * The preview of a note's content: short content as it is, longer content cut
   * to its first 21 bytes followed by "...". The cut counts bytes, as Go's string
   * slicing does, so it may split a multi-byte character.
   */
  function ShortenNoteContent(content: Bytes): (preview: Bytes)
    ensures |preview| <= 24
    ensures preview == content <==> |content| < ShortenFrom
    ensures |content| >= ShortenFrom ==>
      |preview| == 24 && preview[..PreviewPrefixLen] == content[..PreviewPrefixLen]
      && preview[PreviewPrefixLen..] == Ellipsis
  {
    if |content| >= ShortenFrom then content[..PreviewPrefixLen] + Ellipsis else content
  }

  /** The outcomes of an edit, as the integer constants the source declares. */
  const NewNoteState := 0
  const NothingHappenedState := 1
  const OldNoteState := 2
  const NoteDeletedState := 3

  datatype UpdatedNoteState = UpdatedNoteState(state: int)
  {
    /**
     * The message for an outcome; an integer that is no outcome gets the empty
     * message. The messages are text shown to the user, not note content, so they
     * are `string` rather than `Bytes`; all of them are ASCII.
     */
    function ToString(): (s: string)
      ensures s == "" <==> state !in {NewNoteState, NothingHappenedState, OldNoteState, NoteDeletedState}
    {
      if state == NewNoteState then
        "NewNoteState: Succesfully updated note"
      else if state == NothingHappenedState then
        "NothingHappenedState: Note couldn't be updated and is (still) in it's original state"
      else if state == OldNoteState then
        "OldNoteState: Note couldn't be updated and is back to it's original state"
      else if state == NoteDeletedState then
        "NoteDeletedState: Note couldn't be updated and has been unfortunately deleted"
      else
        ""
    }
  }

  /** Two outcomes with the same non-empty message are the same outcome. */
  lemma ToStringTellsOutcomesApart(a: UpdatedNoteState, b: UpdatedNoteState)
    requires a.ToString() == b.ToString() != ""
    ensures a == b
  {
  }

  /** A note as the read paths assemble it from its row and its object. */
  datatype Note = Note(
    id: NoteId,
    name: Bytes,
    bucketName: Bytes,
    content: Bytes,
    createdAtUtc: Bytes,
    contentShortened: Bytes)
}
