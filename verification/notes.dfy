/**
 * The note operations over the two stores: reading a note, listing a user's
 * notes, and the three writes that span both stores (create, edit, delete), each
 * with its compensating step when the second write fails. Every store call takes
 * a failure flag, gathered per operation in a faults record, so each postcondition
 * says exactly what both stores hold afterwards for every combination of failures.
 */
module Notes {
  import opened Values
  import opened ObjectStorage
  import opened Postgresql
  import opened NoteFormat
  import opened Consistency

  /** The content a new note may not have: "error". */
  const ErrorContent: Bytes := [101, 114, 114, 111, 114]

  /** Failures of reading a note: the table query, the object fetch. */
  datatype ReadFaults = ReadFaults(queryFails: bool, getFails: bool)

  /** Failures of the calls NewNote makes, in the order it makes them. */
  datatype CreateFaults = CreateFaults(
    probeFails: bool,          // the existence probe of the object store errs and reads as "absent"
    insertProbeFails: bool,    // the same probe, repeated inside the row insertion
    insertFails: bool,         // the row insertion fails
    putFails: bool,            // writing the object fails
    deleteRowFails: bool)      // the compensating row deletion fails

  /** Failures of the calls UpdateNote makes, in the order it makes them. */
  datatype UpdateFaults = UpdateFaults(
    conflictQueryFails: bool,  // the query for another note with the new name fails
    fetch: ReadFaults,         // reading the note as it is
    renameFails: bool,         // the row rename fails (and reports success)
    removeFails: bool,         // removing the old object fails
    putFails: bool,            // writing the new object fails
    restoreFails: bool)        // writing the old object back fails

  /** Failures of the calls DeleteNoteFromNoteId makes, in the order it makes them. */
  datatype DeleteFaults = DeleteFaults(
    lookupFails: bool,         // the row lookup by id fails
    deleteRowFails: bool,      // the row deletion fails (and reports success)
    removeFails: bool,         // removing the object fails
    reinsertFails: bool)       // putting the row back fails

  /** One entry of a bucket listing: an object name, or an entry that came with an error. */
  datatype ObjectInfo = ObjectInfo(key: Bytes, err: bool)

  /** The row with this id and its object can both be read. */
  predicate NoteReadable(rows: map<NoteId, Row>, objects: map<ObjectKey, Bytes>, noteId: NoteId, f: ReadFaults)
  {
    !f.queryFails && noteId in rows && !f.getFails && KeyOf(rows[noteId]) in objects
  }

  /** NewNote turns the request away before writing anything. */
  predicate CreateRejected(objects: map<ObjectKey, Bytes>, bucket: Bytes, noteName: Bytes, content: Bytes, f: CreateFaults)
  {
    content == ErrorContent || !IsFilenameOk(noteName) || (!f.probeFails && ObjectKey(bucket, noteName) in objects)
  }

  /** The row insertion of NewNote goes through. */
  predicate RowInserted(rows: map<NoteId, Row>, objects: map<ObjectKey, Bytes>, bucket: Bytes, noteName: Bytes,
                        freshId: NoteId, f: CreateFaults)
  {
    !(!f.insertProbeFails && ObjectKey(bucket, noteName) in objects) && !f.insertFails && freshId !in rows
  }

  /** UpdateNote gets past its checks and has read the note as it is. */
  predicate UpdateAdmitted(rows: map<NoteId, Row>, objects: map<ObjectKey, Bytes>,
                           bucket: Bytes, noteId: NoteId, newName: Bytes, f: UpdateFaults)
  {
    IsFilenameOk(newName) && !f.conflictQueryFails && !OtherHasName(rows, noteId, bucket, newName)
    && NoteReadable(rows, objects, noteId, f.fetch)
  }

  /** The table after an edit: renamed only when the name changed and the rename went through. */
  function RowsAfterRename(rows: map<NoteId, Row>, noteId: NoteId, newName: Bytes, renameFails: bool): map<NoteId, Row>
    requires noteId in rows
  {
    if rows[noteId].filename != newName && !renameFails then Renamed(rows, noteId, newName) else rows
  }

  class NoteService {
    const table: NoteTable
    const store: ObjectStore

    constructor (table: NoteTable, store: ObjectStore)
      ensures this.table == table && this.store == store
    {
      this.table := table;
      this.store := store;
    }

    /** The note is put together from its row and its object under (bucket, name). */
    ghost predicate Assembled(note: Note, bucket: Bytes, name: Bytes)
      reads table, store
    {
      var key := ObjectKey(bucket, name);
      && note.name == name && note.bucketName == bucket
      && key in store.objects && note.content == store.objects[key]
      && note.contentShortened == ShortenNoteContent(note.content)
      && note.id in table.rows && table.rows[note.id] == Row(bucket, name, note.createdAtUtc)
    }

    /** A listing entry that GetAllNotesOfUser turns into a note. */
    ghost predicate Listable(bucket: Bytes, info: ObjectInfo, f: ReadFaults)
      reads table, store
    {
      && !info.err && IsFilenameOk(info.key)
      && !f.getFails && ObjectKey(bucket, info.key) in store.objects
      && !f.queryFails && HasNamed(table.rows, bucket, info.key)
    }

    /** Reads a note by bucket and name: its object first, then its row. */
    method GetNoteFromBucketAndNotename(bucket: Bytes, noteName: Bytes, f: ReadFaults) returns (r: Result<Note>)
      ensures r.Success? <==> Listable(bucket, ObjectInfo(noteName, false), f)
      ensures r.Success? ==> Assembled(r.value, bucket, noteName)
    {
      if !IsFilenameOk(noteName) {
        return Failure(FilenameNotOk);
      }
      var content := store.GetObject(bucket, noteName, f.getFails);
      if content.Failure? {
        return Failure(content.error);
      }
      var info := table.GetNoteByBucketAndFilename(bucket, noteName, f.queryFails);
      if info.Failure? {
        return Failure(info.error);
      }
      r := Success(Note(info.value.id, noteName, bucket, content.value, info.value.createdAtUtc,
                        ShortenNoteContent(content.value)));
    }

    /** Reads a note by id: its row first, then the object the row names. */
    method GetNoteFromNoteId(noteId: NoteId, f: ReadFaults) returns (r: Result<Note>)
      ensures r.Success? <==> NoteReadable(table.rows, store.objects, noteId, f)
      ensures r.Success? ==> r.value.id == noteId && Assembled(r.value, r.value.bucketName, r.value.name)
      ensures r.Success? ==> KeyOf(table.rows[noteId]) == ObjectKey(r.value.bucketName, r.value.name)
    {
      var info := table.GetNoteById(noteId, f.queryFails);
      if info.Failure? {
        return Failure(info.error);
      }
      var content := store.GetObject(info.value.bucketname, info.value.filename, f.getFails);
      if content.Failure? {
        return Failure(content.error);
      }
      r := Success(Note(noteId, info.value.filename, info.value.bucketname, content.value,
                        info.value.createdAtUtc, ShortenNoteContent(content.value)));
    }

    /**
     * Lists a user's notes: walks the bucket listing in order and keeps the notes
     * that can be read, silently dropping every entry whose listing or reading
     * failed. `kept` gives, for each note returned, the listing entry it came from.
     */
    method GetAllNotesOfUser(bucket: Bytes, listing: seq<ObjectInfo>, faults: nat -> ReadFaults)
      returns (notes: seq<Note>, ghost kept: seq<nat>)
      ensures |kept| == |notes|
      ensures forall k :: 0 <= k < |kept| ==> kept[k] < |listing| && Assembled(notes[k], bucket, listing[kept[k]].key)
      ensures forall k, l :: 0 <= k < l < |kept| ==> kept[k] < kept[l]
      ensures forall i :: 0 <= i < |listing| ==> (i in kept <==> Listable(bucket, listing[i], faults(i)))
    {
      notes, kept := [], [];
      for i := 0 to |listing|
        invariant |kept| == |notes|
        invariant forall k :: 0 <= k < |kept| ==> kept[k] < i && Assembled(notes[k], bucket, listing[kept[k]].key)
        invariant forall k, l :: 0 <= k < l < |kept| ==> kept[k] < kept[l]
        invariant forall j :: 0 <= j < i ==> (j in kept <==> Listable(bucket, listing[j], faults(j)))
      {
        if listing[i].err {
          continue;
        }
        var actualNote := GetNoteFromBucketAndNotename(bucket, listing[i].key, faults(i));
        if actualNote.Failure? {
          continue;
        }
        notes, kept := notes + [actualNote.value], kept + [i];
      }
    }

    /**
     * Creates a note: writes the row first and the object second, and when the
     * object cannot be written deletes every row with the note's name. The result
     * of that compensating delete is not looked at, so the error returned is the
     * same whether or not the row was removed.
     */
    method NewNote(bucket: Bytes, noteName: Bytes, content: Bytes, freshId: NoteId, now: Bytes, f: CreateFaults)
      returns (err: Option<Error>)
      modifies table, store
      // turned away, or the row insertion failed: nothing is written
      ensures CreateRejected(old(store.objects), bucket, noteName, content, f)
              || !RowInserted(old(table.rows), old(store.objects), bucket, noteName, freshId, f) ==>
        err.Some? && table.rows == old(table.rows) && store.objects == old(store.objects)
      ensures !CreateRejected(old(store.objects), bucket, noteName, content, f)
              && RowInserted(old(table.rows), old(store.objects), bucket, noteName, freshId, f) ==>
        var row := Row(bucket, noteName, now);
        if !f.putFails then
          err.None? && table.rows == old(table.rows)[freshId := row]
          && store.objects == old(store.objects)[ObjectKey(bucket, noteName) := content]
        else
          err.Some? && store.objects == old(store.objects)
          && table.rows == if f.deleteRowFails then old(table.rows)[freshId := row]
                           else WithoutNamed(old(table.rows)[freshId := row], bucket, noteName)
      // on success the row and the object with exactly this content are there
      ensures err.None? ==>
        freshId in table.rows && table.rows[freshId] == Row(bucket, noteName, now)
        && ObjectKey(bucket, noteName) in store.objects && store.objects[ObjectKey(bucket, noteName)] == content
      // from agreeing stores, unless both existence probes failed open
      ensures old(Consistent(table.rows, store.objects)) && !(f.probeFails && f.insertProbeFails) ==>
        (err.None? ==> Consistent(table.rows, store.objects))
        && (err.Some? && !(f.putFails && f.deleteRowFails) ==>
              table.rows == old(table.rows) && store.objects == old(store.objects))
      // when both the object write and the compensation fail, a row is left without its object
      ensures old(Consistent(table.rows, store.objects)) && f.putFails && f.deleteRowFails
              && !CreateRejected(old(store.objects), bucket, noteName, content, f)
              && RowInserted(old(table.rows), old(store.objects), bucket, noteName, freshId, f) ==>
        err.Some? && !Consistent(table.rows, store.objects)
    {
      ghost var rows0, objects0 := table.rows, store.objects;
      if content == ErrorContent {
        return Some(ContentIsError);
      }
      if !IsFilenameOk(noteName) {
        return Some(FilenameNotOk);
      }
      var isExisting := store.DoesNoteWithSameNameExist(bucket, noteName, f.probeFails);
      if isExisting {
        return Some(NoteAlreadyExists);
      }
      err := table.InsertNewNote(store, bucket, noteName, freshId, now, f.insertProbeFails, f.insertFails);
      if err.Some? {
        return;
      }
      var row := Row(bucket, noteName, now);
      var putErr := store.PutObject(bucket, noteName, content, f.putFails);
      if putErr.Some? {
        var ignored := table.DeleteRowOfNote(bucket, noteName, f.deleteRowFails);
        if Consistent(rows0, objects0) {
          if f.deleteRowFails {
            StrayRowIsInconsistent(rows0, objects0, freshId, row);
          } else if !(f.probeFails && f.insertProbeFails) {
            CreateRollbackRestoresRows(rows0, objects0, freshId, row);
          }
        }
        return putErr;
      }
      if Consistent(rows0, objects0) && !(f.probeFails && f.insertProbeFails) {
        CreateKeepsConsistent(rows0, objects0, freshId, row, content);
      }
      err := None;
    }

    /**
     * The end of an edit, once the old object is gone: write the new object, and
     * when that fails write the old one back. The outcome says which of the two
     * the store now holds: the new note, the old note, or neither. This is the
     * intended behaviour; the source as written never writes the old object back
     * and always reports NewNoteState, which `ReplaceObjectAsWritten` models.
     */
    method ReplaceObject(bucket: Bytes, oldName: Bytes, oldContent: Bytes, newName: Bytes, newContent: Bytes,
                         putFails: bool, restoreFails: bool)
      returns (state: UpdatedNoteState, err: Option<Error>)
      modifies store
      ensures !putFails ==>
        state.state == NewNoteState && err.None?
        && store.objects == old(store.objects)[ObjectKey(bucket, newName) := newContent]
      ensures putFails && !restoreFails ==>
        state.state == OldNoteState && err.None?
        && store.objects == old(store.objects)[ObjectKey(bucket, oldName) := oldContent]
      ensures putFails && restoreFails ==>
        state.state == NoteDeletedState && err == Some(NoteLost) && store.objects == old(store.objects)
    {
      var newNoteErr := store.PutObject(bucket, newName, newContent, putFails);
      if newNoteErr.Some? {
        var oldNoteErr := store.PutObject(bucket, oldName, oldContent, restoreFails);
        if oldNoteErr.Some? {
          return UpdatedNoteState(NoteDeletedState), Some(NoteLost);
        }
        return UpdatedNoteState(OldNoteState), None;
      }
      return UpdatedNoteState(NewNoteState), None;
    }

    /**
     * The end of an edit as the source writes it. After writing the new object it
     * tests the error variable that still holds the result of the earlier removal,
     * not the result of the write; the removal has succeeded by then, so the test
     * is always false: the old object is never written back and the outcome is
     * always NewNoteState with no error, whether or not the new object was written.
     */
    method ReplaceObjectAsWritten(bucket: Bytes, oldName: Bytes, oldContent: Bytes, newName: Bytes, newContent: Bytes,
                                  putFails: bool, restoreFails: bool)
      returns (state: UpdatedNoteState, err: Option<Error>)
      modifies store
      ensures state.state == NewNoteState && err.None?
      ensures store.objects == if putFails then old(store.objects)
                               else old(store.objects)[ObjectKey(bucket, newName) := newContent]
    {
      var newNoteErr := store.PutObject(bucket, newName, newContent, putFails);
      return UpdatedNoteState(NewNoteState), None;
    }

    /**
     * Edits a note: checks the new name, reads the note, and when the name or the
     * content changed renames the row (if the name changed), removes the old
     * object and writes the new one, writing the old one back if that fails. The
     * rename is never undone: a failed removal, or a write that had to be rolled
     * back, leaves the row under the new name. The write-back is the intended
     * behaviour (`ReplaceObject`); the source as written never performs it, as
     * `ReplaceObjectAsWritten` shows.
     */
    method UpdateNote(bucket: Bytes, noteId: NoteId, newNoteName: Bytes, newContent: Bytes, f: UpdateFaults)
      returns (state: UpdatedNoteState, err: Option<Error>)
      modifies table, store
      // turned away before anything is written
      ensures !UpdateAdmitted(old(table.rows), old(store.objects), bucket, noteId, newNoteName, f) ==>
        state.state == NothingHappenedState && err.Some?
        && table.rows == old(table.rows) && store.objects == old(store.objects)
      ensures UpdateAdmitted(old(table.rows), old(store.objects), bucket, noteId, newNoteName, f) ==>
        var row := old(table.rows)[noteId];
        var oldContent := old(store.objects)[KeyOf(row)];
        var oldKey, newKey := ObjectKey(bucket, row.filename), ObjectKey(bucket, newNoteName);
        if row.filename == newNoteName && oldContent == newContent then
          state.state == NothingHappenedState && err.None?
          && table.rows == old(table.rows) && store.objects == old(store.objects)
        else
          table.rows == RowsAfterRename(old(table.rows), noteId, newNoteName, f.renameFails)
          && if f.removeFails then
               state.state == NothingHappenedState && err.Some? && store.objects == old(store.objects)
             else if !f.putFails then
               state.state == NewNoteState && err.None?
               && store.objects == (old(store.objects) - {oldKey})[newKey := newContent]
             else if !f.restoreFails then
               state.state == OldNoteState && err.None?
               && store.objects == (old(store.objects) - {oldKey})[oldKey := oldContent]
             else
               state.state == NoteDeletedState && err == Some(NoteLost)
               && store.objects == old(store.objects) - {oldKey}
      // NothingHappenedState never comes with a change to the object store,
      // and without an error it comes with no change at all
      ensures state.state == NothingHappenedState ==> store.objects == old(store.objects)
      ensures state.state == NothingHappenedState && err.None? ==> table.rows == old(table.rows)
      ensures state.state == NewNoteState ==>
        err.None? && ObjectKey(bucket, newNoteName) in store.objects
        && store.objects[ObjectKey(bucket, newNoteName)] == newContent
      // from agreeing stores, for a note of the bucket named
      ensures old(Consistent(table.rows, store.objects)) && noteId in old(table.rows)
              && old(table.rows)[noteId].bucketname == bucket ==>
        var renamed := old(table.rows)[noteId].filename != newNoteName;
        (state.state == NewNoteState && !(renamed && f.renameFails) ==> Consistent(table.rows, store.objects))
        && (state.state == OldNoteState ==>
              store.objects == old(store.objects)
              && (renamed && !f.renameFails ==> !Consistent(table.rows, store.objects)))
        && (state.state == NoteDeletedState ==> !Consistent(table.rows, store.objects))
        && (state.state == NewNoteState && renamed && f.renameFails ==> !Consistent(table.rows, store.objects))
    {
      ghost var rows0, objects0 := table.rows, store.objects;
      if !IsFilenameOk(newNoteName) {
        return UpdatedNoteState(NothingHappenedState), Some(FilenameNotOk);
      }
      var noteWithSameNameExist := table.DoesOtherNoteWithSameNameExist(noteId, bucket, newNoteName, f.conflictQueryFails);
      if noteWithSameNameExist.Failure? {
        return UpdatedNoteState(NothingHappenedState), Some(noteWithSameNameExist.error);
      }
      if noteWithSameNameExist.value {
        return UpdatedNoteState(NothingHappenedState), Some(NoteAlreadyExists);
      }
      var oldNote := GetNoteFromNoteId(noteId, f.fetch);
      if oldNote.Failure? {
        return UpdatedNoteState(NothingHappenedState), Some(oldNote.error);
      }
      var oldNoteName := oldNote.value.name;
      var oldContent := oldNote.value.content;
      var isNameChanged := oldNoteName != newNoteName;
      var isContentChanged := oldContent != newContent;
      if !isNameChanged && !isContentChanged {
        return UpdatedNoteState(NothingHappenedState), None;
      }
      if isNameChanged {
        var ignored := table.UpdateNoteName(noteId, newNoteName, f.renameFails);
      }
      assert table.rows == RowsAfterRename(rows0, noteId, newNoteName, f.renameFails);
      var removeErr := store.RemoveObject(bucket, oldNoteName, f.removeFails);
      if removeErr.Some? {
        return UpdatedNoteState(NothingHappenedState), removeErr;
      }
      state, err := ReplaceObject(bucket, oldNoteName, oldContent, newNoteName, newContent, f.putFails, f.restoreFails);
      if Consistent(rows0, objects0) && rows0[noteId].bucketname == bucket {
        UpdateOutcomeAgreement(rows0, objects0, noteId, newNoteName, newContent, f);
      }
    }

    /**
     * Deletes a note: reads its row, deletes the row, then removes the object; when
     * the removal fails, puts the row back with its id, name and creation time and
     * returns an error either way. The row deletion always reports success, so a
     * row that was not deleted goes unnoticed. The reinsertion is the intended
     * behaviour (`InsertNote`); the source's statement is always refused, as
     * `Postgresql.NoteTable.InsertNoteAsWritten` shows, so the row never comes back.
     */
    method DeleteNoteFromNoteId(noteId: NoteId, f: DeleteFaults) returns (err: Option<Error>)
      modifies table, store
      ensures err.None? <==> !f.lookupFails && noteId in old(table.rows) && !f.removeFails
      ensures f.lookupFails || noteId !in old(table.rows) ==>
        table.rows == old(table.rows) && store.objects == old(store.objects)
      ensures !f.lookupFails && noteId in old(table.rows) ==>
        var key := KeyOf(old(table.rows)[noteId]);
        if !f.removeFails then
          store.objects == old(store.objects) - {key}
          && table.rows == if f.deleteRowFails then old(table.rows) else old(table.rows) - {noteId}
        else
          store.objects == old(store.objects)
          && table.rows == (if !f.deleteRowFails && f.reinsertFails then old(table.rows) - {noteId} else old(table.rows))
          && err == Some(if f.deleteRowFails || f.reinsertFails then RowNotRestored else ObjectCallFailed)
      // an error leaves both stores as they were, unless the row could not be put back
      ensures err.Some? && !(f.removeFails && !f.deleteRowFails && f.reinsertFails) ==>
        table.rows == old(table.rows) && store.objects == old(store.objects)
      // from agreeing stores: agreement after a clean delete, a named residue otherwise
      ensures old(Consistent(table.rows, store.objects)) ==>
        (err.None? && !f.deleteRowFails ==> Consistent(table.rows, store.objects))
        && (err.None? && f.deleteRowFails ==> !Consistent(table.rows, store.objects))
        && (err == Some(RowNotRestored) && !f.deleteRowFails ==> !Consistent(table.rows, store.objects))
    {
      ghost var rows0, objects0 := table.rows, store.objects;
      var postgresqlNote := table.GetNoteById(noteId, f.lookupFails);
      if postgresqlNote.Failure? {
        return Some(postgresqlNote.error);
      }
      var note := postgresqlNote.value;
      // The source returns here if the row deletion reports an error; it never does.
      var ignored := table.DeleteNote(noteId, f.deleteRowFails);
      var removeErr := store.RemoveObject(note.bucketname, note.filename, f.removeFails);
      if removeErr.Some? {
        var reinsertErr := table.InsertNote(noteId, note.bucketname, note.filename, note.createdAtUtc, f.reinsertFails);
        if Consistent(rows0, objects0) && reinsertErr.Some? && !f.deleteRowFails {
          ObjectWithoutRowIsInconsistent(rows0, objects0, noteId);
        }
        if reinsertErr.Some? {
          return Some(RowNotRestored);
        }
        return removeErr;
      }
      if Consistent(rows0, objects0) {
        if f.deleteRowFails {
          RowWithoutObjectIsInconsistent(rows0, objects0, noteId);
        } else {
          DeleteKeepsConsistent(rows0, objects0, noteId);
        }
      }
      err := None;
    }
  }

  /** What each outcome of an admitted edit means for the agreement of the two stores. */
  lemma UpdateOutcomeAgreement(rows: map<NoteId, Row>, objects: map<ObjectKey, Bytes>,
                               noteId: NoteId, newName: Bytes, newContent: Bytes, f: UpdateFaults)
    requires Consistent(rows, objects) && noteId in rows
    requires !OtherHasName(rows, noteId, rows[noteId].bucketname, newName)
    ensures var oldKey := KeyOf(rows[noteId]);
            var newKey := ObjectKey(rows[noteId].bucketname, newName);
            var renamed := rows[noteId].filename != newName;
            && (!(renamed && f.renameFails) ==>
                  Consistent(RowsAfterRename(rows, noteId, newName, f.renameFails), (objects - {oldKey})[newKey := newContent]))
            && (oldKey in objects ==> (objects - {oldKey})[oldKey := objects[oldKey]] == objects)
            && (renamed && !f.renameFails ==> !Consistent(RowsAfterRename(rows, noteId, newName, f.renameFails), objects))
            && !Consistent(RowsAfterRename(rows, noteId, newName, f.renameFails), objects - {oldKey})
  {
    var oldKey := KeyOf(rows[noteId]);
    var renamed := rows[noteId].filename != newName;
    RenameKeepsConsistent(rows, objects, noteId, newName, newContent);
    if !renamed {
      assert Renamed(rows, noteId, newName) == rows;
      RowWithoutObjectIsInconsistent(rows, objects, noteId);
    } else if !f.renameFails {
      RenameWithoutObjectIsInconsistent(rows, objects, noteId, newName);
      assert !Consistent(Renamed(rows, noteId, newName), objects - {oldKey}) by {
        NamedKeyOf(Renamed(rows, noteId, newName), noteId);
      }
    } else {
      RowWithoutObjectIsInconsistent(rows, objects, noteId);
    }
  }
}
