# updatemgr release workflow — a Dafny model

This project models the release commands of the update manager of
portmaster (`cmds/updatemgr/release.go`). Those commands do three things:

* **Channel selection** (`getChannelVersions`). For every component of the registry export,
  the versions are scanned newest first. An entry whose prerelease tag equals the requested
  channel is recorded and ends the scan. A stable entry (empty tag) that does not match ends
  the scan with nothing recorded. Any other entry is skipped. The recorded value is the entry's
  version number, or in storage-path mode the component's current file path.
* **Gated publish** (`writeIndex`). The selection is serialised. The index path
  `<storage dir>/<channel>.json` is built. After the operator confirms, the whole file is
  written.
* **Gated prune** (`removeFilesFromIndex`). After the operator confirms, each selected path is
  removed in turn. The first failure stops the loop and is returned.
* **Commands**. `release` publishes `stable.json` from the selection of the stable channel `""`.
  `prerelease <channel>` publishes `<channel>.json`. With `--reset` it instead prunes the files
  of the storage-path selection.

Modules: `Wrappers` holds Option and Result. `Selection` holds the scan: the recursive
specification `FirstMatch`/`ChannelVersions`, the loop `GetChannelVersions`, and its lemmas.
`Storage` holds the filesystem: a `FileSystem` class holding `files: map<string, Bytes>` and the
read-only paths. `Publish` holds `writeIndex` and `removeFilesFromIndex`, each proved equal to a
specification function, with lemmas about those functions. `Commands` holds `release` and
`prerelease`.

External inputs are parameters:

* the registry export, already sorted newest first;
* the registry's storage directory;
* the operator's answer to the confirmation prompt (`confirm`);
* JSON serialisation (`marshal`, an opaque function that may fail);
* the order in which Go happens to iterate the selection map (`order`, any enumeration of its keys).

A newest stable entry hides every older prerelease entry. For a component with versions
[2.0.0, 1.5.0-beta, 1.4.0], channel "beta" selects nothing, because the scan breaks at the
stable 2.0.0 (cmds/updatemgr/release.go:124-125). `Selection.StableEntryHidesOlderPrerelease`
states this.

## Model

| member | source | states |
|---|---|---|
| `Selection.FirstMatch` | cmds/updatemgr/release.go:119-139 | the recorded entry, if any, has the channel's tag and only non-matching, non-stable entries before it; when none is recorded, no entry qualifies |
| `Selection.EligibleUnique` | cmds/updatemgr/release.go:131-138 | at most one entry of a component qualifies, so at most one value is recorded per component |
| `Selection.ComponentSelection` | cmds/updatemgr/release.go:118-139 | a component contributes a value exactly when it has a qualifying entry; the value is the component's file path in storage-path mode, else the qualifying entry's version number |
| `Selection.ChannelVersions` | cmds/updatemgr/release.go:117-142 | the keys of the selection are identifiers of the export |
| `Selection.GetChannelVersions` | cmds/updatemgr/release.go:111-143 | the nested scan with break and continue builds exactly the map `ChannelVersions` specifies |
| `Selection.ChannelVersionsKeys` | cmds/updatemgr/release.go:117-142 | an identifier is a key iff some component with that identifier has a qualifying entry |
| `Selection.ChannelVersionsLastWins` | cmds/updatemgr/release.go:131-136 | the value under a key comes from the last component with that identifier that selects something |
| `Selection.SelectionPerComponent` | cmds/updatemgr/release.go:118-139 | with unique identifiers, a component is a key iff it has a qualifying entry (so none for an empty version list or a stable entry before the match); its value is that entry's number or the component's path |
| `Selection.ModesShareKeys` | cmds/updatemgr/release.go:132-136 | storage-path mode and version mode produce the same key set |
| `Selection.StoragePathIsComponentFile` | cmds/updatemgr/release.go:132-133 | in storage-path mode each value is the component's own file path, not a per-version path |
| `Selection.StableSelectsNewestStable` | cmds/updatemgr/release.go:121-135 | on channel "" something is selected iff the component has a stable entry, and it is the first stable entry; the stop-at-stable branch cannot fire |
| `Selection.LaterEntriesIgnored` | cmds/updatemgr/release.go:119-139 | once a prefix holds a match or a stable entry, entries after it do not change the result |
| `Selection.StableEntryHidesOlderPrerelease` | cmds/updatemgr/release.go:118-139 | "beta" selects nothing when the newest entry is stable; the stable channel selects 2.0.0 and 1.0.0, or the component files in storage-path mode |
| `Storage.WriteFileEffect` | cmds/updatemgr/release.go:77-80 | a write succeeds iff the path is writable; it then replaces that file whole and leaves every other path; a failed write changes nothing |
| `Storage.FileSystem.WriteFile` | cmds/updatemgr/release.go:77 | the files and the error are those of `WriteFileEffect` |
| `Storage.RemoveEffect` | cmds/updatemgr/release.go:101-104 | a removal succeeds iff the file exists and is not read-only; it then removes only that path; a failure changes nothing |
| `Storage.FileSystem.Remove` | cmds/updatemgr/release.go:101 | the files and the error are those of `RemoveEffect` |
| `Publish.IndexPath` | cmds/updatemgr/release.go:64 | the index path starts with the storage directory and ends with `<channel>.json`, with exactly one separator between them when the directory has no trailing one |
| `Publish.IndexPathInjective` | cmds/updatemgr/release.go:64 | different channels without a separator in their names get different index files in one directory |
| `Publish.WriteIndex` | cmds/updatemgr/release.go:56-84 | the files and the returned error are those of `WriteIndexEffect` on the old files |
| `Publish.WriteIndexEncodeFailure` | cmds/updatemgr/release.go:58-61 | a serialisation failure is returned whatever the operator would answer, and no file changes |
| `Publish.WriteIndexDeclined` | cmds/updatemgr/release.go:71-74 | a declined prompt changes no file and returns success |
| `Publish.WriteIndexConfirmed` | cmds/updatemgr/release.go:76-83 | a confirmed publish replaces `<dir>/<channel>.json` by the serialised data and changes no other path; if the write is refused, nothing changes and the error is returned |
| `Publish.WriteIndexOverwrites` | cmds/updatemgr/release.go:77 | the outcome does not depend on what the index file held before (overwrite, not merge) |
| `Publish.RemoveFilesFromIndex` | cmds/updatemgr/release.go:86-109 | the files and the error are those of `RemoveFilesEffect`: nothing when declined, else the sequential prune of the selection's paths in enumeration order |
| `Publish.PruneSucceeds` | cmds/updatemgr/release.go:99-108 | the prune succeeds iff every path exists, is removable and is listed once; then exactly the listed paths are gone |
| `Publish.PruneStopsAtFirstFailure` | cmds/updatemgr/release.go:100-105 | a failed prune stopped at some index k: the paths before k were removed and stay removed, the error is the one path k's removal reports, and path k and later paths are untouched |
| `Publish.PruneOnlyRemoves` | cmds/updatemgr/release.go:100-105 | a prune never creates or alters a file; what is left is part of the original |
| `Publish.PruneMissingSecond` | cmds/updatemgr/release.go:100-105 | with three paths where the second is missing, the first is deleted, the error names the second, and the third remains |
| `Publish.RemoveFilesDeclined` | cmds/updatemgr/release.go:94-97 | a declined prune deletes nothing and returns success |
| `Publish.PathsAreSelection` | cmds/updatemgr/release.go:100-101 | the paths visited are exactly the values of the selection |
| `Commands.Release` | cmds/updatemgr/release.go:35-40 | `release` writes the index named "stable" from the version-mode selection of channel "" |
| `Commands.Prerelease` | cmds/updatemgr/release.go:42-54 | with reset, it prunes the storage-path selection of the channel; otherwise it writes `<channel>.json` from the version-mode selection |
| `Commands.StableIndexContents` | cmds/updatemgr/release.go:36-38 | with unique identifiers, the stable index lists a component iff it has a stable entry, with the version number of its newest stable entry |
| `Commands.ResetMatchesPublish` | cmds/updatemgr/release.go:46-52 | a reset prunes the same components a publish of that channel would list, and each path is that component's file |

## Left out

- Command construction with cobra, the `init` registration, the flags and the argument-count check (lines 13-33, 43). The channel and the reset flag are parameters. The `includeUnreleased` flag has no behaviour.
- `registry.SelectVersions` and `registry.Export`. The export is a parameter, already sorted newest first. The prerelease tag of each version is a plain string, because semantic-version parsing is not part of this model.
- `json.MarshalIndent` is the opaque, possibly failing `marshal` parameter. So the model does not state that reading a written index back gives the same selection.
- Printing: the preview, the list of files to delete, and the "aborted", "written" and "deleted" notices. This is output only.
- The interactive confirmation read. Its answer is the `confirm` parameter. "No prompt before a serialisation failure" is stated as: that outcome does not depend on the answer.
- Publish.IndexPath: joins the directory and `<channel>.json` with one separator. It does not model the lexical cleaning that `filepath.Join` applies (`..`, doubled separators).
- Publish.IndexPathInjective: stated only for channel names without '/'. With a separator, the cleaning of `filepath.Join` can make two names the same file ("./beta" and "beta"), and the model, which does not clean, would keep them apart.
- Filesystem semantics beyond a map from path to bytes are not modelled: directories, file mode 0644, partial writes and other error causes. A write fails only on a read-only path. A removal fails on a missing path or a read-only path.
- Go's randomised map iteration order. The prune visits the keys in a given `order`, which may be any enumeration of the map's keys.
- Repeating the selection on the same export gives the same map, because the specification is a function. No separate lemma states this.
