/**
 * The two commands of the release workflow (cmds/updatemgr/release.go,
 * release and prerelease): choose the channel and the selection mode, then
 * publish or prune.
 *
 * The registry export (already sorted newest first), the storage directory
 * of the registry, the operator's answer and the map enumeration order are
 * parameters.
 */
module Commands {
  import opened Wrappers
  import opened Storage
  import opened Selection
  import opened Publish

  /** release: publish the index named "stable" from the selection of the stable channel "". */
  method Release(fs: FileSystem, exported: seq<Component>, storageDir: string, marshal: Marshaller, confirm: bool)
    returns (err: Option<Error>)
    modifies fs
    ensures (fs.files, err) ==
            WriteIndexEffect(old(fs.files), fs.readOnly, storageDir, "stable", ChannelVersions(exported, "", false), marshal, confirm)
  {
    var versions := GetChannelVersions(exported, "", false);
    err := WriteIndex(fs, storageDir, "stable", versions, marshal, confirm);
  }

  /**
   * prerelease: with reset, delete the files of the channel's selection in
   * storage-path mode, visiting its keys in `order`; otherwise publish
   * `<channel>.json` from the selection in version mode.
   */
  method Prerelease(fs: FileSystem, exported: seq<Component>, storageDir: string, channel: string, reset: bool,
                    order: seq<string>, marshal: Marshaller, confirm: bool)
    returns (err: Option<Error>)
    requires reset ==> IsEnumeration(order, ChannelVersions(exported, channel, true).Keys)
    modifies fs
    ensures reset ==>
              (fs.files, err) ==
              RemoveFilesEffect(old(fs.files), fs.readOnly, ChannelVersions(exported, channel, true), order, confirm)
    ensures !reset ==>
              (fs.files, err) ==
              WriteIndexEffect(old(fs.files), fs.readOnly, storageDir, channel, ChannelVersions(exported, channel, false), marshal, confirm)
  {
    if reset {
      var paths := GetChannelVersions(exported, channel, true);
      err := RemoveFilesFromIndex(fs, paths, order, confirm);
      return;
    }
    var versions := GetChannelVersions(exported, channel, false);
    err := WriteIndex(fs, storageDir, channel, versions, marshal, confirm);
  }

  /**
   * The stable index lists, for each component of an export with unique
   * identifiers, the version number of its newest stable entry, and lists
   * no component that has no stable entry.
   */
  lemma StableIndexContents(exported: seq<Component>, k: int)
    requires UniqueIdentifiers(exported) && 0 <= k < |exported|
    ensures var c := exported[k];
            var versions := ChannelVersions(exported, "", false);
            (c.identifier in versions <==> exists j :: 0 <= j < |c.versions| && c.versions[j].tag == "") &&
            (c.identifier in versions ==>
               exists i :: 0 <= i < |c.versions| && c.versions[i].tag == "" &&
                           (forall m :: 0 <= m < i ==> c.versions[m].tag != "") &&
                           versions[c.identifier] == c.versions[i].versionNumber)
  {
    var c := exported[k];
    SelectionPerComponent(exported, "", false, k);
    StableSelectsNewestStable(c.versions);
    var fm := FirstMatch(c.versions, "");
    if fm.Some? {
      assert Eligible(c.versions, "", fm.value);
    }
  }

  /**
   * A reset prunes exactly the components that publishing the same channel
   * would list, and each path it deletes is a selected component's file.
   */
  lemma ResetMatchesPublish(exported: seq<Component>, channel: string, k: int)
    requires UniqueIdentifiers(exported) && 0 <= k < |exported|
    ensures ChannelVersions(exported, channel, true).Keys == ChannelVersions(exported, channel, false).Keys
    ensures exported[k].identifier in ChannelVersions(exported, channel, true) ==>
              ChannelVersions(exported, channel, true)[exported[k].identifier] == exported[k].filePath
  {
    ModesShareKeys(exported, channel);
    if exported[k].identifier in ChannelVersions(exported, channel, true) {
      StoragePathIsComponentFile(exported, channel, k);
    }
  }
}
