# yana notes across two stores, modelled in Dafny

yana keeps short text notes for its users. A note's content is an object in an
object store (MinIO), one bucket per user, under the note's filename. Its
metadata is a row of the `note` table in PostgreSQL: id, bucket name, filename
and creation time. The two stores share no transaction, so creating, editing and
deleting a note are each a short sequence of store calls with a compensating call
when the second write fails. This project models those operations and the read
paths beside them, and proves what each leaves in both stores for every
combination of store failures.

- `values.dfy` (`Values`): bytes (Go strings are byte strings), `Option`, `Result`,
  and the kinds of error the operations construct.
- `object_store.dfy` (`ObjectStorage`): the object store as a class over
  `map<ObjectKey, Bytes>` with get, put and remove. It also holds the existence
  probe `DoesNoteWithSameNameExist`, which reads any error as "absent".
- `note_table.dfy` (`Postgresql`): the `note` table as a class over
  `map<NoteId, Row>`. Each statement of yana/postgresql.go that touches notes is
  a method, and the reads are methods that change nothing.
- `note_format.dfy` (`NoteFormat`): the filename check, the content preview, the
  edit outcomes and their messages, and the assembled `Note`.
- `consistency.dfy` (`Consistency`): `Consistent(rows, objects)` says every row has
  its object, every object has its row, and no two rows share a (bucket, filename).
  Its lemmas say which steps keep that agreement. They also say which steps leave
  a named residue: a row without its object, or an object without its row.
- `notes.dfy` (`Notes`): the class `NoteService` holding both stores. It runs
  `NewNote`, `UpdateNote`, `DeleteNoteFromNoteId`, the two single-note reads and
  the listing.
- `findings.dfy` (`Findings`): two client scenarios checked by the verifier, each
  setting a defect below beside the intended behaviour.

Every store call takes a failure flag. Each operation gathers its flags in a
faults record (`CreateFaults`, `UpdateFaults`, `DeleteFaults`, `ReadFaults`), so
a postcondition can say what both stores hold afterwards for every outcome. Fresh
ids and the database's `NOW()` are parameters.

Where the code's behaviour is easy to misread, the model follows the code:

- Before a create, the code checks for an existing note in the object store, not
  in the table. It does so twice: once in `NewNote` and once inside the row
  insertion. Both probes read a failed lookup as "absent".
- `NewNote` ignores whether its compensating row deletion worked. It returns an
  error either way, and the residue shows only in the stores.
- The row rename and the row deletion build their errors and drop them, so both
  always report success. The model keeps this. A failed rename then goes
  unnoticed by `UpdateNote`. A failed row deletion lets `DeleteNoteFromNoteId`
  remove the object and report success while the row stays.
- `UpdateNote` never undoes its rename. A failed removal, or a write that was
  rolled back, leaves the row under the new name while the object stays under the
  old one.
- `UpdateNote` reports the outcomes "nothing happened", "updated", "back to the
  old note" and "note lost" as `NothingHappenedState`, `NewNoteState`,
  `OldNoteState` and `NoteDeletedState`. `NothingHappenedState` comes with an
  error when a check or the removal failed, and with no error when nothing changed.
- The preview threshold and cut count bytes (25 and 21), as Go's `len` and
  slicing do.

Two facts about the stores are taken as given, since the schema and the object
store are not part of yana's code: the id is the `note` table's key, so an insert
with an id already present fails; and removing an object that is not there
succeeds, as S3 removal does.

## Model

| member | source | states |
|---|---|---|
| `ObjectStorage.ObjectStore.GetObject` | yana/minio.go:173-181 | a read succeeds exactly when the object exists and the call did not fail, and returns the object's whole content |
| `ObjectStorage.ObjectStore.PutObject` | yana/minio.go:272-273 | a successful put stores exactly this content under (bucket, name) and nothing else changes; a failed put changes nothing |
| `ObjectStorage.ObjectStore.RemoveObject` | yana/minio.go:317 | a successful remove deletes (bucket, name) and nothing else; a failed remove changes nothing |
| `ObjectStorage.ObjectStore.DoesNoteWithSameNameExist` | yana/minio.go:120-135 | true exactly when the object exists and its lookup did not fail; a failed lookup reports an existing object as absent |
| `Postgresql.WithoutNamed` | yana/postgresql.go:214-215 | keeps exactly the rows whose bucket or filename differs, unchanged, and no row with the name remains |
| `Postgresql.Renamed` | yana/postgresql.go:304-305 | same ids; only the filename of the row with that id changes; its bucket and creation time and every other row stay |
| `Postgresql.NoteTable.DeleteRowOfNote` | yana/postgresql.go:208-220 | on success, every row with this bucket and filename is gone and no other row changes; on failure, an error and no change |
| `Postgresql.NoteTable.InsertNewNote` | yana/postgresql.go:222-244 | an error and no change when the probe finds the object or the statement fails; otherwise exactly one new row (fresh id, bucket, filename, now) |
| `Postgresql.NoteTable.InsertNote` | yana/postgresql.go:246-259 | the intended reinsertion: on success, the row comes back with the caller's id, bucket, filename and creation time and nothing else changes |
| `Postgresql.NoteTable.InsertNoteAsWritten` | yana/postgresql.go:252-253 | as written, the reinsertion returns an error for every input and never touches the table |
| `Postgresql.NoteTable.GetNoteByBucketAndFilename` | yana/postgresql.go:261-278 | succeeds exactly when some row has this bucket and filename and returns such a row with its id; otherwise NotFound, or QueryFailed when the query fails |
| `Postgresql.NoteTable.GetNoteById` | yana/postgresql.go:280-296 | succeeds exactly when a row has the id; the record carries that id and that row's fields; otherwise NotFound or QueryFailed |
| `Postgresql.NoteTable.UpdateNoteName` | yana/postgresql.go:298-310 | always reports success; if the statement ran, only the filename of that row changed |
| `Postgresql.NoteTable.DeleteNote` | yana/postgresql.go:312-324 | always reports success; if the statement ran, only the row with that id is gone |
| `Postgresql.NoteTable.DoesOtherNoteWithSameNameExist` | yana/postgresql.go:326-342 | true exactly when a row with another id has this bucket and filename; in a table with unique names, a note's own name is never a conflict |
| `NoteFormat.IsFilenameOk` | yana/minio.go:70-76 | false exactly when the name has a NUL or '/' byte, is "." or "..", or is longer than 1024 bytes |
| `NoteFormat.FilenameExamples` | yana/minio.go:70-76 | rejects "a/b", a NUL name, ".", ".." and a 1025-byte name; accepts a 1024-byte name, the empty name and "..." |
| `NoteFormat.ShortenNoteContent` | yana/minio.go:157-162 | unchanged exactly when shorter than 25 bytes; otherwise the first 21 bytes and "..."; never longer than 24 bytes |
| `NoteFormat.UpdatedNoteState.ToString` | yana/minio.go:53-65 | the message is empty exactly when the integer is none of the four outcomes |
| `NoteFormat.ToStringTellsOutcomesApart` | yana/minio.go:53-65 | two outcomes with the same non-empty message are the same outcome |
| `Consistency.CreateKeepsConsistent` | yana/minio.go:260-278 | adding a row and its object under a name no object has keeps the stores in agreement |
| `Consistency.CreateRollbackRestoresRows` | yana/minio.go:274-276 | after the failed object write, deleting by name from agreeing stores removes exactly the row just added |
| `Consistency.StrayRowIsInconsistent` | yana/minio.go:274-276 | a row added without its object puts agreeing stores out of agreement |
| `Consistency.DeleteKeepsConsistent` | yana/minio.go:357-371 | deleting a row together with its object keeps the stores in agreement |
| `Consistency.RowWithoutObjectIsInconsistent` | yana/postgresql.go:318-323 | removing an object whose row stays leaves a row without its object |
| `Consistency.ObjectWithoutRowIsInconsistent` | yana/minio.go:362-368 | deleting a row whose object stays leaves an object without its row |
| `Consistency.RenameKeepsConsistent` | yana/minio.go:308-337 | renaming a row and moving its object to the new name keeps agreement when no other row in the bucket has the new name |
| `Consistency.RenameWithoutObjectIsInconsistent` | yana/minio.go:308-320 | a rename whose object stays under the old name leaves the stores out of agreement |
| `Consistency.OwnNameIsNoConflict` | yana/postgresql.go:334-341 | with unique names, keeping a note's current name is never a conflict with another note |
| `Notes.UpdateOutcomeAgreement` | yana/minio.go:322-337 | per edit outcome: a completed edit keeps agreement; a rolled-back rename, or a lost object, does not |
| `Notes.NoteService.GetNoteFromBucketAndNotename` | yana/minio.go:164-194 | succeeds exactly when the name is valid, the object reads and a row has the name; the note carries that content, its preview and the row's id and creation time |
| `Notes.NoteService.GetNoteFromNoteId` | yana/minio.go:196-224 | succeeds exactly when the row and the object it names both read; the note carries the id, the row's fields, the content and its preview |
| `Notes.NoteService.GetAllNotesOfUser` | yana/minio.go:137-155 | keeps listing order; returns one assembled note for exactly the entries that read without error and drops every other entry |
| `Notes.NoteService.NewNote` | yana/minio.go:238-279 | rejects "error" content, a bad name or an existing object with no writes; the row goes in before the object; on success the row and the exact content exist; a failed put leaves no object and deletes the row, or leaves a row without its object when that delete fails |
| `Notes.NoteService.ReplaceObject` | yana/minio.go:322-337 | intended end of an edit: NewNoteState with the new object; OldNoteState with the old object written back; NoteDeletedState with an error when neither write succeeds |
| `Notes.NoteService.ReplaceObjectAsWritten` | yana/minio.go:322-337 | as written: always NewNoteState with no error, even when the new object was not written |
| `Notes.NoteService.UpdateNote` | yana/minio.go:281-339 | NothingHappenedState with an error and no writes for a bad name, a name conflict or an unreadable note; no writes when nothing changed; the final state of both stores for each other outcome; agreement kept on success, residue named otherwise, including a rename that failed silently before a successful write, which is still reported as NewNoteState |
| `Notes.NoteService.DeleteNoteFromNoteId` | yana/minio.go:341-372 | unknown id: an error and no change; success removes the row and the object; a failed removal puts the row back with its id and creation time and still returns an error; otherwise the orphan object is named |

## Findings

| source | as written | input that shows it | evidently intended | confidence | as-written member | corrected member |
|---|---|---|---|---|---|---|
| yana/minio.go:325 | after writing the new object, and after writing the old one back, the code tests `err`, which still holds the result of the removal at line 317 and is nil there | an edit whose removal succeeds and whose new write fails: the result is NewNoteState and nil, and no object is left for the note (`Findings.LostEditReportedAsUpdated`) | test the write errors (`newNoteErr`, `oldNoteErr`): OldNoteState when the old object is written back, NoteDeletedState when it is not | high; not executed | `Notes.NoteService.ReplaceObjectAsWritten` | `Notes.NoteService.ReplaceObject` |
| yana/postgresql.go:252 | the reinsertion's fourth value is the text `%4`, not a placeholder, and only the bucket and the filename are passed, so the statement is always refused | a delete whose object removal fails: the row is gone and cannot come back, so the object has no row (`Findings.DeleteRollbackNeverRestoresRow`) | bind id, bucket, filename and creation time to `$1`-`$4` and re-create the row | high; not executed | `Postgresql.NoteTable.InsertNoteAsWritten` | `Postgresql.NoteTable.InsertNote` |

`UpdateNote` uses `ReplaceObject`, and `DeleteNoteFromNoteId` uses `InsertNote`.
The dropped errors described above are modelled as written.

## Left out

- The object-store client's lifecycle (`checkMinIOClient`, `readMinIOConfig`, `NewBucket`, the global client) is left out; the client is taken as ready. The model therefore lacks the paths where client setup fails. These include `NewNote` returning no error at yana/minio.go:246-249 and `GetAllNotesOfUser` returning an empty list at yana/minio.go:138-141. They also include the BadClient error of the existence probe.
- A failed database connection is not modelled. On failure `connectToPostgreSQL` returns an empty handle (yana/postgresql.go:129, :136, :141), and the deferred `db.Close()` or the next statement on that handle aborts the call instead of returning an error; in `UpdateNote` a failed connection during the rename therefore stops the edit before the object is touched. The `fails` flags of `Postgresql.NoteTable` stand only for a statement that fails on a live connection. Connection configuration is left out with it.
- User accounts, login and registration (yana/postgresql.go, yana/postgres.go), the HTTP server (server.go) and the YanaError codes (yana/yanaErrors.go) are left out: they are outside the note operations.
- `Notes.NoteService.GetAllNotesOfUser`: the bucket listing comes in as a parameter with per-entry errors; how the object store produces it, and in what order, is not modelled.
- `Notes.NoteService.NewNote`: returns only the error; the upload information the object store returns is a foreign value and is left out.
- Error values are kinds, not formatted messages; the wrapped cause is not kept.
- When several rows share a bucket and filename, `GetNoteByBucketAndFilename` returns any one of them; which row the database picks is not modelled.
- Store calls are atomic steps: a failed put writes nothing, and nothing else runs between the calls of one operation. The check-then-act races between the existence checks and the writes are concurrency, left out.
- Uuids from the database and `NOW()` are parameters (`freshId`, `now`); logging output is left out.
- The check of the row deletion's error at yana/minio.go:357-360 is not written: that call always reports success, so the check never fires.
