/**
 * Client scenarios, checked by the verifier, that exhibit the two defects of
 * the source next to the behaviour the source evidently intends. Each starts
 * from empty stores and creates one note.
 */
module Findings {
  import opened Values
  import opened ObjectStorage
  import opened Postgresql
  import opened NoteFormat
  import opened Consistency
  import opened Notes

  const NoFaults := CreateFaults(false, false, false, false, false)

  /**
   * An edit of the content alone whose new object cannot be written. As written,
   * the edit reports NewNoteState with no error while no object is left for the
   * note; as intended, the old object is written back, the edit reports
   * OldNoteState and the note reads as before.
   */
  method LostEditReportedAsUpdated()
  {
    var bucket, id, name, now: Bytes := [117], [49], [110], [48];
    var content, edited: Bytes := [120], [121];

    var table := new NoteTable();
    var store := new ObjectStore();
    var service := new NoteService(table, store);
    var err := service.NewNote(bucket, name, content, id, now, NoFaults);
    assert err.None?;

    // as written: the steps of the edit after the checks, with the stale error test
    var removeErr := store.RemoveObject(bucket, name, false);
    var state, updateErr := service.ReplaceObjectAsWritten(bucket, name, content, name, edited, true, false);
    assert state.state == NewNoteState && updateErr.None?;
    assert ObjectKey(bucket, name) !in store.objects;
    NamedKeyOf(table.rows, id);
    assert !Consistent(table.rows, store.objects);

    // as intended: the same edit and the same failure
    var table' := new NoteTable();
    var store' := new ObjectStore();
    var service' := new NoteService(table', store');
    err := service'.NewNote(bucket, name, content, id, now, NoFaults);
    assert Consistent(table'.rows, store'.objects) by {
      NamedKeyOf(table'.rows, id);
    }
    state, updateErr := service'.UpdateNote(bucket, id, name, edited,
                                            UpdateFaults(false, ReadFaults(false, false), false, false, true, false));
    assert state.state == OldNoteState && updateErr.None?;
    var reread := service'.GetNoteFromNoteId(id, ReadFaults(false, false));
    assert reread.Success? && reread.value.content == content;
  }

  /**
   * A delete whose object removal fails. As written, the row cannot be put back,
   * so the object is left without a row; as intended, the delete reports an
   * error and the note reads as before, with its id and creation time.
   */
  method DeleteRollbackNeverRestoresRow()
  {
    var bucket, id, name, now: Bytes := [117], [49], [110], [48];
    var content: Bytes := [120];

    var table := new NoteTable();
    var store := new ObjectStore();
    var service := new NoteService(table, store);
    var err := service.NewNote(bucket, name, content, id, now, NoFaults);
    assert err.None?;

    // as written: the steps of the delete, with the reinsertion that is always refused
    var deleteErr := table.DeleteNote(id, false);
    var removeErr := store.RemoveObject(bucket, name, true);
    var reinsertErr := table.InsertNoteAsWritten(id, bucket, name, now, false);
    assert reinsertErr.Some? && id !in table.rows && ObjectKey(bucket, name) in store.objects;

    // as intended: the same delete and the same failure
    var table' := new NoteTable();
    var store' := new ObjectStore();
    var service' := new NoteService(table', store');
    err := service'.NewNote(bucket, name, content, id, now, NoFaults);
    err := service'.DeleteNoteFromNoteId(id, DeleteFaults(false, false, true, false));
    assert err.Some?;
    var reread := service'.GetNoteFromNoteId(id, ReadFaults(false, false));
    assert reread.Success? && reread.value.content == content && reread.value.createdAtUtc == now;
  }
}
