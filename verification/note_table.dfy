/**
 * The `note` table of the relational database: one row per note, keyed by the
 * note's id, with the bucket (the owner), the filename and the creation time.
 * The id is taken to be the table's key, so an insert with an id that is already
 * present fails. Each statement takes a `fails` flag standing for a statement
 * that fails on a live connection; a failed connection is not modelled.
 */
module Postgresql {
  import opened Values
  import ObjectStorage

  datatype Row = Row(bucketname: Bytes, filename: Bytes, createdAtUtc: Bytes)

  /** A row as a query returns it, together with its id. */
  datatype PostgreSqlNote = PostgreSqlNote(id: NoteId, bucketname: Bytes, filename: Bytes, createdAtUtc: Bytes)

  predicate IsNamed(row: Row, bucket: Bytes, filename: Bytes)
  {
    row.bucketname == bucket && row.filename == filename
  }

  /** Some row has this bucket and filename. */
  predicate HasNamed(rows: map<NoteId, Row>, bucket: Bytes, filename: Bytes)
  {
    exists id :: id in rows && IsNamed(rows[id], bucket, filename)
  }

  /** Some row other than the one with id `id` has this bucket and filename. */
  predicate OtherHasName(rows: map<NoteId, Row>, id: NoteId, bucket: Bytes, filename: Bytes)
  {
    exists other :: other in rows && other != id && IsNamed(rows[other], bucket, filename)
  }

  /** The table after deleting every row with this bucket and filename. */
  function WithoutNamed(rows: map<NoteId, Row>, bucket: Bytes, filename: Bytes): (r: map<NoteId, Row>)
    ensures forall id :: id in r <==> id in rows && !IsNamed(rows[id], bucket, filename)
    ensures forall id :: id in r ==> r[id] == rows[id]
    ensures !HasNamed(r, bucket, filename)
  {
    map id | id in rows && !IsNamed(rows[id], bucket, filename) :: rows[id]
  }

  /** The table after setting the filename of the row with id `id`, if there is one. */
  function Renamed(rows: map<NoteId, Row>, id: NoteId, newName: Bytes): (r: map<NoteId, Row>)
    ensures r.Keys == rows.Keys
    ensures forall other :: other in rows && other != id ==> r[other] == rows[other]
    ensures id in rows ==> r[id] == Row(rows[id].bucketname, newName, rows[id].createdAtUtc)
  {
    if id in rows then rows[id := rows[id].(filename := newName)] else rows
  }

  class NoteTable {
    var rows: map<NoteId, Row>

    constructor ()
      ensures rows == map[]
    {
      rows := map[];
    }

    /** Deletes every row with this bucket and filename. */
    method DeleteRowOfNote(bucket: Bytes, filename: Bytes, fails: bool) returns (err: Option<Error>)
      modifies this
      ensures err.None? <==> !fails
      ensures rows == if fails then old(rows) else WithoutNamed(old(rows), bucket, filename)
    {
      if fails {
        return Some(QueryFailed);
      }
      rows := WithoutNamed(rows, bucket, filename);
      err := None;
    }

    /**
     * Inserts a row for a new note with a fresh id and the current time. Before
     * inserting it asks the object store, not this table, whether the note exists.
     */
    method InsertNewNote(store: ObjectStorage.ObjectStore, bucket: Bytes, filename: Bytes,
                         freshId: NoteId, now: Bytes, probeFails: bool, fails: bool)
      returns (err: Option<Error>)
      modifies this
      ensures err.None? <==>
        !(!probeFails && ObjectStorage.ObjectKey(bucket, filename) in store.objects) && !fails && freshId !in old(rows)
      ensures rows == if err.Some? then old(rows) else old(rows)[freshId := Row(bucket, filename, now)]
    {
      var isNoteInDB := store.DoesNoteWithSameNameExist(bucket, filename, probeFails);
      if isNoteInDB {
        return Some(NoteAlreadyExists);
      }
      if fails || freshId in rows {
        return Some(QueryFailed);
      }
      rows := rows[freshId := Row(bucket, filename, now)];
      err := None;
    }

    /**
     * Re-creates a row with an id and creation time the caller supplies, as the
     * delete operation's compensation intends: all four values bound to the four
     * columns.
     */
    method InsertNote(id: NoteId, bucket: Bytes, filename: Bytes, createdAt: Bytes, fails: bool)
      returns (err: Option<Error>)
      modifies this
      ensures err.None? <==> !fails && id !in old(rows)
      ensures rows == if err.Some? then old(rows) else old(rows)[id := Row(bucket, filename, createdAt)]
    {
      if fails || id in rows {
        return Some(QueryFailed);
      }
      rows := rows[id := Row(bucket, filename, createdAt)];
      err := None;
    }

    /**
     * The reinsertion as the source writes it: the statement's fourth value is the
     * text `%4` rather than a placeholder and only the bucket and the filename are
     * passed as arguments, so the statement is refused whatever the state of the
     * database, and the table never changes.
     */
    method InsertNoteAsWritten(id: NoteId, bucket: Bytes, filename: Bytes, createdAt: Bytes, fails: bool)
      returns (err: Option<Error>)
      ensures err.Some?
    {
      err := Some(QueryFailed);
    }

    /** Looks up a row by bucket and filename; with several matches, any one of them. */
    method GetNoteByBucketAndFilename(bucket: Bytes, filename: Bytes, fails: bool)
      returns (r: Result<PostgreSqlNote>)
      ensures r.Success? <==> !fails && HasNamed(rows, bucket, filename)
      ensures r.Failure? ==> r.error == if fails then QueryFailed else NotFound
      ensures r.Success? ==>
        r.value.id in rows && rows[r.value.id] == Row(bucket, filename, r.value.createdAtUtc)
        && r.value.bucketname == bucket && r.value.filename == filename
    {
      if fails {
        return Failure(QueryFailed);
      }
      if !HasNamed(rows, bucket, filename) {
        return Failure(NotFound);
      }
      var id :| id in rows && IsNamed(rows[id], bucket, filename);
      var row := rows[id];
      r := Success(PostgreSqlNote(id, row.bucketname, row.filename, row.createdAtUtc));
    }

    /** Looks up the row with this id; the record carries the id it was asked for. */
    method GetNoteById(id: NoteId, fails: bool) returns (r: Result<PostgreSqlNote>)
      ensures r.Success? <==> !fails && id in rows
      ensures r.Failure? ==> r.error == if fails then QueryFailed else NotFound
      ensures r.Success? ==>
        r.value.id == id && rows[id] == Row(r.value.bucketname, r.value.filename, r.value.createdAtUtc)
    {
      if fails {
        return Failure(QueryFailed);
      }
      if id !in rows {
        return Failure(NotFound);
      }
      var row := rows[id];
      r := Success(PostgreSqlNote(id, row.bucketname, row.filename, row.createdAtUtc));
    }

    /**
     * Sets the filename of the row with this id. The errors it meets are built
     * and dropped, so it reports success even when the update did not happen.
     */
    method UpdateNoteName(id: NoteId, newName: Bytes, fails: bool) returns (err: Option<Error>)
      modifies this
      ensures err.None?
      ensures rows == if fails then old(rows) else Renamed(old(rows), id, newName)
    {
      if !fails {
        rows := Renamed(rows, id, newName);
      }
      err := None;
    }

    /**
     * Deletes the row with this id. Like the rename, it drops its errors and
     * always reports success.
     */
    method DeleteNote(id: NoteId, fails: bool) returns (err: Option<Error>)
      modifies this
      ensures err.None?
      ensures rows == if fails then old(rows) else old(rows) - {id}
    {
      if !fails {
        rows := rows - {id};
      }
      err := None;
    }

    /**
     * Whether a row other than `id` already has this bucket and filename, or the
     * error of a query that failed.
     */
    method DoesOtherNoteWithSameNameExist(id: NoteId, bucket: Bytes, filename: Bytes, fails: bool)
      returns (r: Result<bool>)
      ensures r.Success? <==> !fails
      ensures r.Success? ==> (r.value <==> OtherHasName(rows, id, bucket, filename))
      ensures r.Success? && id in rows && IsNamed(rows[id], bucket, filename)
              && (forall other :: other in rows && IsNamed(rows[other], bucket, filename) ==> other == id)
              ==> !r.value
    {
      if fails {
        return Failure(QueryFailed);
      }
      r := Success(OtherHasName(rows, id, bucket, filename));
    }
  }
}
