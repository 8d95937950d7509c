/**
  A file on disk as `java.io.File` and `RandomAccessFile` expose it to the
  engine: whether it exists, its permission bits for the owner, and its bytes.
 */
module Files {
  import opened DownloadModel

  class LocalFile {
    var present: bool
    var readable: bool
    var writable: bool
    var data: seq<byte>

    /** A missing file has no permissions and no bytes. */
    predicate Valid()
      reads this
    {
      !present ==> !readable && !writable && data == []
    }

    /** The file's state as a value. */
    function State(): (s: FileState)
      reads this
      ensures s.present == present && s.data == data
      ensures Valid() && !present ==> s == Absent
    {
      FileState(present, readable, writable, data)
    }

    constructor (s: FileState)
      requires s.present || s == Absent
      ensures Valid() && State() == s
    {
      present, readable, writable, data := s.present, s.readable, s.writable, s.data;
    }

    /** `delete()`: afterwards nothing is there. */
    method Delete()
      modifies this
      ensures Valid() && State() == Absent
    {
      present, readable, writable, data := false, false, false, [];
    }

    /**
      `createNewFile()` followed by `setReadable(true, true)` and
      `setWritable(true, true)`: a missing file becomes an empty one; an
      existing one keeps its bytes. Either way the owner may read and write it.
     */
    method CreateNewFile()
      requires Valid()
      modifies this
      ensures Valid()
      ensures State() == if old(present) then old(State()).(readable := true, writable := true) else Created
    {
      if !present {
        data := [];
      }
      present, readable, writable := true, true, true;
    }

    /** `seek(pos)` then `write(bytes)` through a `RandomAccessFile` opened on an existing file. */
    method WriteBytes(pos: nat, bytes: seq<byte>)
      requires present && pos <= |data|
      modifies this
      ensures Valid()
      ensures State() == old(State()).(data := WriteAt(old(data), pos, bytes))
    {
      data := WriteAt(data, pos, bytes);
    }

    /**
      `renameTo(dest)`: when the file system accepts it, `dest` becomes this
      file and this file is gone; otherwise nothing changes. `succeeds` is the
      file system's answer.
     */
    method RenameTo(dest: LocalFile, succeeds: bool)
      requires dest != this && Valid()
      modifies this, dest
      ensures Valid() && dest.Valid() == (succeeds || old(dest.Valid()))
      ensures succeeds ==> dest.State() == old(State()) && State() == Absent
      ensures !succeeds ==> State() == old(State()) && dest.State() == old(dest.State())
    {
      if succeeds {
        dest.present, dest.readable, dest.writable, dest.data := present, readable, writable, data;
        Delete();
      }
    }
  }
}
