/**
 * The slice of the operating system's filesystem that the index workflow
 * touches: whole-file writes and single-file removals.
 */
module Storage {
  import opened Wrappers

  type Bytes = seq<bv8>

  /** The failures the workflow can report. */
  datatype Error =
    | EncodeFailed(reason: string)   // the selection could not be serialised
    | NotExist(path: string)         // removal of a path that holds no file
    | PermissionDenied(path: string) // write or removal refused for the path

  /** The files after writing `data` to `path`, or the failure. The file is replaced whole. */
  function WriteFileEffect(files: map<string, Bytes>, readOnly: set<string>, path: string, data: Bytes)
    : (r: (map<string, Bytes>, Option<Error>))
    ensures r.1.None? <==> path !in readOnly
    ensures r.1.None? ==> path in r.0 && r.0[path] == data && r.0 - {path} == files - {path}
    ensures r.1.Some? ==> r.0 == files && r.1 == Some(PermissionDenied(path))
  {
    if path in readOnly then (files, Some(PermissionDenied(path)))
    else (files[path := data], None)
  }

  /** The files after removing `path`, or the failure. */
  function RemoveEffect(files: map<string, Bytes>, readOnly: set<string>, path: string)
    : (r: (map<string, Bytes>, Option<Error>))
    ensures r.1.None? <==> path in files && path !in readOnly
    ensures r.1.None? ==> r.0 == files - {path}
    ensures r.1.Some? ==> r.0 == files
  {
    if path !in files then (files, Some(NotExist(path)))
    else if path in readOnly then (files, Some(PermissionDenied(path)))
    else (files - {path}, None)
  }

  /** The files by path; `readOnly` names the paths that cannot be written or removed. */
  class FileSystem {
    var files: map<string, Bytes>
    const readOnly: set<string>

    constructor (files: map<string, Bytes>, readOnly: set<string>)
      ensures this.files == files && this.readOnly == readOnly
    {
      this.files := files;
      this.readOnly := readOnly;
    }

    /** ioutil.WriteFile: create or truncate the file and write `data`. */
    method WriteFile(path: string, data: Bytes) returns (err: Option<Error>)
      modifies this`files
      ensures (files, err) == WriteFileEffect(old(files), readOnly, path, data)
    {
      if path in readOnly {
        err := Some(PermissionDenied(path));
      } else {
        files := files[path := data];
        err := None;
      }
    }

    /** os.Remove: delete the file at `path`. */
    method Remove(path: string) returns (err: Option<Error>)
      modifies this`files
      ensures (files, err) == RemoveEffect(old(files), readOnly, path)
    {
      if path !in files {
        err := Some(NotExist(path));
      } else if path in readOnly {
        err := Some(PermissionDenied(path));
      } else {
        files := files - {path};
        err := None;
      }
    }
  }
}
