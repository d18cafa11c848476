/**
 * The object store (MinIO) as the note code uses it: one bucket per user, objects
 * addressed by (bucket, name) and holding a note's content. Each call takes a
 * `fails` flag standing for a network or server error; a failed call changes nothing.
 */
module ObjectStorage {
  import opened Values

  datatype ObjectKey = ObjectKey(bucket: Bytes, name: Bytes)

  class ObjectStore {
    var objects: map<ObjectKey, Bytes>

    constructor ()
      ensures objects == map[]
    {
      objects := map[];
    }

    /** GetObject followed by reading the whole object. */
    method GetObject(bucket: Bytes, name: Bytes, fails: bool) returns (r: Result<Bytes>)
      ensures r.Success? <==> !fails && ObjectKey(bucket, name) in objects
      ensures r.Success? ==> r.value == objects[ObjectKey(bucket, name)]
    {
      var key := ObjectKey(bucket, name);
      if fails || key !in objects {
        r := Failure(ObjectCallFailed);
      } else {
        r := Success(objects[key]);
      }
    }

    /** PutObject: writes the whole content at once, replacing an object of the same name. */
    method PutObject(bucket: Bytes, name: Bytes, content: Bytes, fails: bool) returns (err: Option<Error>)
      modifies this
      ensures err == if fails then Some(ObjectCallFailed) else None
      ensures objects == if fails then old(objects) else old(objects)[ObjectKey(bucket, name) := content]
    {
      if fails {
        err := Some(ObjectCallFailed);
      } else {
        objects := objects[ObjectKey(bucket, name) := content];
        err := None;
      }
    }

    /** RemoveObject: removing a name that is not there succeeds and changes nothing. */
    method RemoveObject(bucket: Bytes, name: Bytes, fails: bool) returns (err: Option<Error>)
      modifies this
      ensures err == if fails then Some(ObjectCallFailed) else None
      ensures objects == if fails then old(objects) else old(objects) - {ObjectKey(bucket, name)}
    {
      if fails {
        err := Some(ObjectCallFailed);
      } else {
        objects := objects - {ObjectKey(bucket, name)};
        err := None;
      }
    }

    /**
     * The existence probe: it fetches the object and asks for its metadata, and any
     * error on the way is read as "no such note", so a failed lookup reports an
     * object that is there as absent.
     */
    method DoesNoteWithSameNameExist(bucket: Bytes, noteName: Bytes, getFails: bool) returns (found: bool)
      ensures found <==> !getFails && ObjectKey(bucket, noteName) in objects
      ensures getFails ==> !found
    {
      var fetched := GetObject(bucket, noteName, getFails);
      found := fetched.Success?;
    }
  }
}
