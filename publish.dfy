/**
 * The confirmation-gated side effects of the index workflow
 * (cmds/updatemgr/release.go, writeIndex and removeFilesFromIndex):
 * publishing a selection as `<storage dir>/<channel>.json`, and deleting the
 * files a selection names.
 *
 * The operator's answer to the confirmation prompt is the parameter
 * `confirm`; JSON serialisation is the parameter `marshal`, an opaque
 * function that may fail.
 */
module Publish {
  import opened Wrappers
  import opened Storage

  /** Serialisation of a selection into the bytes of an index document. */
  type Marshaller = map<string, string> -> Result<Bytes, string>

  /** The storage directory with a separator after it, as a path join places it. */
  function DirPrefix(storageDir: string): (p: string)
    ensures |p| >= |storageDir| && p[..|storageDir|] == storageDir
  {
    if storageDir == [] || storageDir[|storageDir| - 1] == '/' then storageDir
    else storageDir + "/"
  }

  /** The index file of a channel: `<storage dir>/<channel>.json`. */
  function IndexPath(storageDir: string, channel: string): (p: string)
    ensures storageDir == [] ==> p == channel + ".json"
    ensures storageDir != [] && storageDir[|storageDir| - 1] != '/' ==> p == storageDir + "/" + channel + ".json"
    ensures |p| >= |storageDir| + |channel| + 5
    ensures p[..|storageDir|] == storageDir
    ensures p[|p| - |channel| - 5..] == channel + ".json"
  {
    DirPrefix(storageDir) + channel + ".json"
  }

  /**
   * Different channels publish to different index files in the same directory,
   * for channel names without a separator (path cleaning then only touches the
   * directory part, the same way for both).
   */
  lemma IndexPathInjective(storageDir: string, c1: string, c2: string)
    requires '/' !in c1 && '/' !in c2
    requires IndexPath(storageDir, c1) == IndexPath(storageDir, c2)
    ensures c1 == c2
  {
    var d := DirPrefix(storageDir);
    var p := IndexPath(storageDir, c1);
    assert p[|d|..] == c1 + ".json";
    assert p[|d|..] == c2 + ".json";
    assert c1 == (c1 + ".json")[..|c1|];
    assert c2 == (c2 + ".json")[..|c2|];
  }

  /**
   * What writeIndex does to the files and returns: a serialisation failure is
   * returned whatever the operator would answer; a declined prompt changes
   * nothing and succeeds; a confirmed one writes the whole document.
   */
  function WriteIndexEffect(files: map<string, Bytes>, readOnly: set<string>, storageDir: string,
                            channel: string, versions: map<string, string>, marshal: Marshaller, confirm: bool)
    : (map<string, Bytes>, Option<Error>)
  {
    match marshal(versions)
    case Failure(reason) => (files, Some(EncodeFailed(reason)))
    case Success(data) =>
      if !confirm then (files, None)
      else WriteFileEffect(files, readOnly, IndexPath(storageDir, channel), data)
  }

  /** writeIndex: serialise, build the index path, ask, then write the whole file. */
  method WriteIndex(fs: FileSystem, storageDir: string, channel: string, versions: map<string, string>,
                    marshal: Marshaller, confirm: bool)
    returns (err: Option<Error>)
    modifies fs
    ensures (fs.files, err) == WriteIndexEffect(old(fs.files), fs.readOnly, storageDir, channel, versions, marshal, confirm)
  {
    var versionData := marshal(versions);
    if versionData.Failure? {
      return Some(EncodeFailed(versionData.error));
    }
    var indexFilePath := IndexPath(storageDir, channel);
    if !confirm {
      return None;
    }
    err := fs.WriteFile(indexFilePath, versionData.value);
  }

  /** A failed serialisation is reported before the prompt: the answer plays no part and nothing is written. */
  lemma WriteIndexEncodeFailure(files: map<string, Bytes>, readOnly: set<string>, storageDir: string,
                                channel: string, versions: map<string, string>, marshal: Marshaller, confirm: bool)
    requires marshal(versions).Failure?
    ensures WriteIndexEffect(files, readOnly, storageDir, channel, versions, marshal, confirm) ==
            (files, Some(EncodeFailed(marshal(versions).error)))
  {
  }

  /** Declining the prompt is a silent abort: no file changes and no error. */
  lemma WriteIndexDeclined(files: map<string, Bytes>, readOnly: set<string>, storageDir: string,
                           channel: string, versions: map<string, string>, marshal: Marshaller)
    requires marshal(versions).Success?
    ensures WriteIndexEffect(files, readOnly, storageDir, channel, versions, marshal, false) == (files, None)
  {
  }

  /**
   * A confirmed publish replaces the channel's index file by the serialised
   * selection, whatever it held before, and leaves every other path as it was;
   * a refused write changes nothing.
   */
  lemma WriteIndexConfirmed(files: map<string, Bytes>, readOnly: set<string>, storageDir: string,
                            channel: string, versions: map<string, string>, marshal: Marshaller)
    requires marshal(versions).Success?
    ensures var path := IndexPath(storageDir, channel);
            var (files', err) := WriteIndexEffect(files, readOnly, storageDir, channel, versions, marshal, true);
            (err.None? <==> path !in readOnly) &&
            (err.None? ==> files' == files[path := marshal(versions).value]) &&
            (err.Some? ==> files' == files && err == Some(PermissionDenied(path)))
  {
  }

  /** The index written does not depend on the previous content of the index file: no merge. */
  lemma WriteIndexOverwrites(files: map<string, Bytes>, readOnly: set<string>, storageDir: string,
                             channel: string, versions: map<string, string>, marshal: Marshaller,
                             confirm: bool, previous: Bytes)
    requires marshal(versions).Success?
    ensures var path := IndexPath(storageDir, channel);
            var (a, errA) := WriteIndexEffect(files, readOnly, storageDir, channel, versions, marshal, confirm);
            var (b, errB) := WriteIndexEffect(files[path := previous], readOnly, storageDir, channel, versions, marshal, confirm);
            errA == errB && (confirm && errA.None? ==> a == b)
  {
    var path := IndexPath(storageDir, channel);
    assert files[path := previous][path := marshal(versions).value] == files[path := marshal(versions).value];
  }

  /** `order` lists every key of the selection exactly once: one enumeration of the map. */
  ghost predicate IsEnumeration(order: seq<string>, keys: set<string>)
  {
    (forall i, j :: 0 <= i < j < |order| ==> order[i] != order[j]) &&
    (forall k :: k in order <==> k in keys)
  }

  /** The paths of the selection, visited in the order of the enumeration. */
  function Paths(versions: map<string, string>, order: seq<string>): seq<string>
    requires forall k :: k in order ==> k in versions
  {
    seq(|order|, i requires 0 <= i < |order| => versions[order[i]])
  }

  /** Every path of `paths` exists, may be removed, and appears once. */
  ghost predicate Removable(files: map<string, Bytes>, readOnly: set<string>, paths: seq<string>)
  {
    (forall i :: 0 <= i < |paths| ==> paths[i] in files && paths[i] !in readOnly) &&
    (forall i, j :: 0 <= i < j < |paths| ==> paths[i] != paths[j])
  }

  /** The paths of a sequence as a set. */
  function PathSet(paths: seq<string>): set<string>
  {
    set p | p in paths
  }

  /** Remove the paths one after the other, stopping at the first removal that fails. */
  function PruneEffect(files: map<string, Bytes>, readOnly: set<string>, paths: seq<string>)
    : (r: (map<string, Bytes>, Option<Error>))
    decreases |paths|
  {
    if paths == [] then (files, None)
    else
      var (files', err) := RemoveEffect(files, readOnly, paths[0]);
      if err.Some? then (files, err)
      else PruneEffect(files', readOnly, paths[1..])
  }

  /** What removeFilesFromIndex does: nothing when declined, otherwise the sequential prune. */
  function RemoveFilesEffect(files: map<string, Bytes>, readOnly: set<string>, versions: map<string, string>,
                             order: seq<string>, confirm: bool)
    : (map<string, Bytes>, Option<Error>)
    requires forall k :: k in order ==> k in versions
  {
    if !confirm then (files, None)
    else PruneEffect(files, readOnly, Paths(versions, order))
  }

  /** removeFilesFromIndex: ask, then delete every selected path in turn, returning the first failure. */
  method RemoveFilesFromIndex(fs: FileSystem, versions: map<string, string>, order: seq<string>, confirm: bool)
    returns (err: Option<Error>)
    requires IsEnumeration(order, versions.Keys)
    modifies fs
    ensures (fs.files, err) == RemoveFilesEffect(old(fs.files), fs.readOnly, versions, order, confirm)
  {
    if !confirm {
      return None;
    }
    ghost var paths := Paths(versions, order);
    for i := 0 to |order|
      invariant PruneEffect(old(fs.files), fs.readOnly, paths) == PruneEffect(fs.files, fs.readOnly, paths[i..])
    {
      var filePath := versions[order[i]];
      assert paths[i..][0] == filePath && paths[i..][1..] == paths[i + 1..];
      err := fs.Remove(filePath);
      if err.Some? {
        return err;
      }
    }
    err := None;
  }

  /** Removable is closed under putting a removable path that is not among the rest in front. */
  lemma RemovableCons(files: map<string, Bytes>, readOnly: set<string>, p: string, rest: seq<string>)
    requires p in files && p !in readOnly
    requires Removable(files - {p}, readOnly, rest)
    ensures Removable(files, readOnly, [p] + rest)
  {
    var q := [p] + rest;
    forall i, j | 0 <= i < j < |q| ensures q[i] != q[j] {
      assert q[j] == rest[j - 1];
      if i > 0 {
        assert q[i] == rest[i - 1];
      }
    }
  }

  /** Removing `p` and then the rest is removing the whole list at once. */
  lemma RemoveConsSet(files: map<string, Bytes>, p: string, rest: seq<string>)
    ensures (files - {p}) - PathSet(rest) == files - PathSet([p] + rest)
  {
    assert PathSet([p] + rest) == {p} + PathSet(rest);
  }

  /**
   * The prune succeeds exactly when every path exists, may be removed and is
   * listed once; then every listed path is gone and nothing else changed.
   */
  lemma {:induction false} PruneSucceeds(files: map<string, Bytes>, readOnly: set<string>, paths: seq<string>)
    ensures PruneEffect(files, readOnly, paths).1.None? <==> Removable(files, readOnly, paths)
    ensures PruneEffect(files, readOnly, paths).1.None? ==>
              PruneEffect(files, readOnly, paths).0 == files - PathSet(paths)
    decreases |paths|
  {
    if paths != [] {
      var p, rest := paths[0], paths[1..];
      assert forall i :: 0 <= i < |rest| ==> rest[i] == paths[i + 1];
      if p in files && p !in readOnly {
        var files' := files - {p};
        PruneSucceeds(files', readOnly, rest);
        if Removable(files, readOnly, paths) {
          assert Removable(files', readOnly, rest);
        }
        if Removable(files', readOnly, rest) {
          assert paths == [p] + rest;
          RemovableCons(files, readOnly, p, rest);
          RemoveConsSet(files, p, rest);
        }
      } else {
        assert !Removable(files, readOnly, paths) by {
          assert paths[0] == p;
        }
      }
    }
  }

  /** The prune of `paths` stopped at index `k` with outcome `r`. */
  ghost predicate StoppedAt(files: map<string, Bytes>, readOnly: set<string>, paths: seq<string>, k: int,
                            r: (map<string, Bytes>, Option<Error>))
  {
    0 <= k < |paths| &&
    Removable(files, readOnly, paths[..k]) &&
    r.0 == files - PathSet(paths[..k]) &&
    RemoveEffect(files - PathSet(paths[..k]), readOnly, paths[k]) == (files - PathSet(paths[..k]), r.1)
  }

  /**
   * A failed prune stopped at one path: every earlier path was removed and
   * stays removed, the failing path and all later ones were not touched, and
   * the error is the one that removal reported.
   */
  lemma {:induction false} PruneStopsAtFirstFailure(files: map<string, Bytes>, readOnly: set<string>, paths: seq<string>)
    requires PruneEffect(files, readOnly, paths).1.Some?
    ensures exists k :: StoppedAt(files, readOnly, paths, k, PruneEffect(files, readOnly, paths))
    decreases |paths|
  {
    var p, rest := paths[0], paths[1..];
    var r := PruneEffect(files, readOnly, paths);
    if p in files && p !in readOnly {
      var files' := files - {p};
      var r' := PruneEffect(files', readOnly, rest);
      assert r == r';
      PruneStopsAtFirstFailure(files', readOnly, rest);
      var k :| StoppedAt(files', readOnly, rest, k, r');
      assert paths[..k + 1] == [p] + rest[..k];
      assert paths[k + 1] == rest[k];
      RemovableCons(files, readOnly, p, rest[..k]);
      RemoveConsSet(files, p, rest[..k]);
      assert StoppedAt(files, readOnly, paths, k + 1, r);
    } else {
      assert paths[..0] == [] && PathSet([]) == {};
      assert files - {} == files;
      assert StoppedAt(files, readOnly, paths, 0, r);
    }
  }

  /** A prune never creates or alters a file: the result is a part of the original. */
  lemma {:induction false} PruneOnlyRemoves(files: map<string, Bytes>, readOnly: set<string>, paths: seq<string>)
    ensures var files' := PruneEffect(files, readOnly, paths).0;
            files'.Keys <= files.Keys && forall q :: q in files' ==> files'[q] == files[q]
    decreases |paths|
  {
    if paths != [] {
      var (files', err) := RemoveEffect(files, readOnly, paths[0]);
      if err.None? {
        PruneOnlyRemoves(files', readOnly, paths[1..]);
      }
    }
  }

  /**
   * The partial-deletion case: of three paths, the first removable and the
   * second missing, the prune removes the first, reports the second, and
   * leaves the third in place.
   */
  lemma PruneMissingSecond(files: map<string, Bytes>, readOnly: set<string>, p1: string, p2: string, p3: string)
    requires p1 in files && p1 !in readOnly && p2 !in files && p3 in files && p3 != p1
    ensures PruneEffect(files, readOnly, [p1, p2, p3]) == (files - {p1}, Some(NotExist(p2)))
    ensures p3 in PruneEffect(files, readOnly, [p1, p2, p3]).0
  {
    assert [p1, p2, p3][1..] == [p2, p3];
  }

  /** Declining the prune prompt deletes nothing and succeeds. */
  lemma RemoveFilesDeclined(files: map<string, Bytes>, readOnly: set<string>, versions: map<string, string>, order: seq<string>)
    requires IsEnumeration(order, versions.Keys)
    ensures RemoveFilesEffect(files, readOnly, versions, order, false) == (files, None)
  {
  }

  /** The prune visits exactly the paths of the selection. */
  lemma PathsAreSelection(versions: map<string, string>, order: seq<string>)
    requires IsEnumeration(order, versions.Keys)
    ensures PathSet(Paths(versions, order)) == versions.Values
  {
    var ps := Paths(versions, order);
    forall v | v in versions.Values ensures v in ps {
      var k :| k in versions && versions[k] == v;
      var i :| 0 <= i < |order| && order[i] == k;
      assert ps[i] == v;
    }
  }
}
