/**
 * What it means for the two stores to agree: every row has its object, every
 * object its row, and no two rows name the same (bucket, filename). The lemmas
 * say which steps of the note operations keep that agreement and which leave a
 * named residue behind: a row without its object, or an object without its row.
 */
module Consistency {
  import opened Values
  import opened ObjectStorage
  import opened Postgresql

  /** The object a row stands for. */
  function KeyOf(row: Row): ObjectKey
  {
    ObjectKey(row.bucketname, row.filename)
  }

  /** The objects the rows of the table stand for. */
  ghost function NamedKeys(rows: map<NoteId, Row>): set<ObjectKey>
  {
    set id | id in rows :: KeyOf(rows[id])
  }

  ghost predicate UniqueNames(rows: map<NoteId, Row>)
  {
    forall i, j :: i in rows && j in rows && KeyOf(rows[i]) == KeyOf(rows[j]) ==> i == j
  }

  ghost predicate Consistent(rows: map<NoteId, Row>, objects: map<ObjectKey, Bytes>)
  {
    UniqueNames(rows) && objects.Keys == NamedKeys(rows)
  }

  lemma NamedKeyOf(rows: map<NoteId, Row>, id: NoteId)
    requires id in rows
    ensures KeyOf(rows[id]) in NamedKeys(rows)
  {
  }

  /** Adding a row together with its object, under a name no object has, keeps the stores in agreement. */
  lemma CreateKeepsConsistent(rows: map<NoteId, Row>, objects: map<ObjectKey, Bytes>,
                              id: NoteId, row: Row, content: Bytes)
    requires Consistent(rows, objects)
    requires id !in rows && KeyOf(row) !in objects
    ensures Consistent(rows[id := row], objects[KeyOf(row) := content])
  {
    var rows' := rows[id := row];
    forall k | k in NamedKeys(rows')
      ensures k in NamedKeys(rows) + {KeyOf(row)}
    {
      var i :| i in rows' && KeyOf(rows'[i]) == k;
      if i != id {
        NamedKeyOf(rows, i);
      }
    }
    forall k | k in NamedKeys(rows) + {KeyOf(row)}
      ensures k in NamedKeys(rows')
    {
      if k == KeyOf(row) {
        NamedKeyOf(rows', id);
      } else {
        var i :| i in rows && KeyOf(rows[i]) == k;
        NamedKeyOf(rows', i);
      }
    }
  }

  /**
   * Deleting every row named like a just-added row, from a consistent table whose
   * objects do not include that name, removes exactly that row.
   */
  lemma CreateRollbackRestoresRows(rows: map<NoteId, Row>, objects: map<ObjectKey, Bytes>, id: NoteId, row: Row)
    requires Consistent(rows, objects)
    requires id !in rows && KeyOf(row) !in objects
    ensures WithoutNamed(rows[id := row], row.bucketname, row.filename) == rows
  {
    var r := WithoutNamed(rows[id := row], row.bucketname, row.filename);
    forall i | i in rows
      ensures i in r && r[i] == rows[i]
    {
      NamedKeyOf(rows, i);
    }
  }

  /** A row added without an object under its name puts the stores out of agreement. */
  lemma StrayRowIsInconsistent(rows: map<NoteId, Row>, objects: map<ObjectKey, Bytes>, id: NoteId, row: Row)
    requires Consistent(rows, objects)
    requires id !in rows
    ensures !Consistent(rows[id := row], objects)
  {
    var rows' := rows[id := row];
    NamedKeyOf(rows', id);
    if KeyOf(row) in objects {
      var i :| i in rows && KeyOf(rows[i]) == KeyOf(row);
      assert rows'[i] == rows[i];
      assert !UniqueNames(rows');
    }
  }

  /** Deleting a row together with its object keeps the stores in agreement. */
  lemma DeleteKeepsConsistent(rows: map<NoteId, Row>, objects: map<ObjectKey, Bytes>, id: NoteId)
    requires Consistent(rows, objects)
    requires id in rows
    ensures Consistent(rows - {id}, objects - {KeyOf(rows[id])})
  {
    var rows' := rows - {id};
    forall k | k in NamedKeys(rows)
      ensures k in NamedKeys(rows') <==> k != KeyOf(rows[id])
    {
      var i :| i in rows && KeyOf(rows[i]) == k;
      if k != KeyOf(rows[id]) {
        NamedKeyOf(rows', i);
      }
    }
  }

  /** Deleting an object whose row stays leaves that row without its object. */
  lemma RowWithoutObjectIsInconsistent(rows: map<NoteId, Row>, objects: map<ObjectKey, Bytes>, id: NoteId)
    requires Consistent(rows, objects)
    requires id in rows
    ensures !Consistent(rows, objects - {KeyOf(rows[id])})
  {
    NamedKeyOf(rows, id);
  }

  /** Deleting a row whose object stays leaves that object without a row. */
  lemma ObjectWithoutRowIsInconsistent(rows: map<NoteId, Row>, objects: map<ObjectKey, Bytes>, id: NoteId)
    requires Consistent(rows, objects)
    requires id in rows
    ensures !Consistent(rows - {id}, objects)
  {
    NamedKeyOf(rows, id);
    var rows' := rows - {id};
    forall i | i in rows'
      ensures KeyOf(rows'[i]) != KeyOf(rows[id])
    {
      assert rows'[i] == rows[i];
    }
    assert KeyOf(rows[id]) !in NamedKeys(rows');
  }

  /**
   * Renaming a row and replacing its object by one under the new name keeps the
   * stores in agreement, provided no other row in the bucket has the new name.
   * With the name unchanged this is an edit of the content alone.
   */
  lemma RenameKeepsConsistent(rows: map<NoteId, Row>, objects: map<ObjectKey, Bytes>,
                              id: NoteId, newName: Bytes, content: Bytes)
    requires Consistent(rows, objects)
    requires id in rows
    requires !OtherHasName(rows, id, rows[id].bucketname, newName)
    ensures Consistent(Renamed(rows, id, newName),
                       (objects - {KeyOf(rows[id])})[ObjectKey(rows[id].bucketname, newName) := content])
  {
    var rows' := Renamed(rows, id, newName);
    var oldKey, newKey := KeyOf(rows[id]), ObjectKey(rows[id].bucketname, newName);
    var objects' := (objects - {oldKey})[newKey := content];
    assert KeyOf(rows'[id]) == newKey;
    forall i | i in rows' && i != id
      ensures KeyOf(rows'[i]) == KeyOf(rows[i]) != newKey
    {
      assert !IsNamed(rows[i], rows[id].bucketname, newName);
    }
    forall k | k in NamedKeys(rows')
      ensures k in objects'
    {
      var i :| i in rows' && KeyOf(rows'[i]) == k;
      if i != id {
        NamedKeyOf(rows, i);
        assert KeyOf(rows[i]) != oldKey;
      }
    }
    forall k | k in objects'
      ensures k in NamedKeys(rows')
    {
      if k == newKey {
        NamedKeyOf(rows', id);
      } else {
        var i :| i in rows && KeyOf(rows[i]) == k;
        assert i != id;
        NamedKeyOf(rows', i);
      }
    }
  }

  /**
   * Renaming a row while its object stays under the old name leaves a row without
   * its object and an object without its row.
   */
  lemma RenameWithoutObjectIsInconsistent(rows: map<NoteId, Row>, objects: map<ObjectKey, Bytes>,
                                          id: NoteId, newName: Bytes)
    requires Consistent(rows, objects)
    requires id in rows && newName != rows[id].filename
    ensures !Consistent(Renamed(rows, id, newName), objects)
  {
    var rows' := Renamed(rows, id, newName);
    var oldKey := KeyOf(rows[id]);
    NamedKeyOf(rows, id);
    forall i | i in rows'
      ensures KeyOf(rows'[i]) != oldKey
    {
      if i != id {
        assert rows'[i] == rows[i];
      }
    }
    assert oldKey !in NamedKeys(rows');
  }

  /** In a table with unique names, a note's own current name is never another note's. */
  lemma OwnNameIsNoConflict(rows: map<NoteId, Row>, id: NoteId)
    requires UniqueNames(rows) && id in rows
    ensures !OtherHasName(rows, id, rows[id].bucketname, rows[id].filename)
  {
    forall other | other in rows && other != id
      ensures !IsNamed(rows[other], rows[id].bucketname, rows[id].filename)
    {
      assert KeyOf(rows[other]) != KeyOf(rows[id]);
    }
  }
}
