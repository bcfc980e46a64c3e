/**
 * Channel selection: for every component of a registry export, pick the
 * newest version that belongs to a release channel, stopping at the first
 * stable version (cmds/updatemgr/release.go, getChannelVersions).
 *
 * The registry hands over each component's versions already sorted by
 * precedence, newest first; that order is taken as given here.
 */
module Selection {
  import opened Wrappers

  /** One version of a component: its prerelease tag ("" is stable) and its version number. */
  datatype Version = Version(tag: string, versionNumber: string)

  /** One exported component: identifier, the path of its current file, and its versions newest first. */
  datatype Component = Component(identifier: string, filePath: string, versions: seq<Version>)

  /** The scan passes over `v` and goes on: a different tag that is not stable. */
  predicate Skipped(v: Version, channel: string)
  {
    v.tag != channel && v.tag != ""
  }

  /** Entry `i` is the one the scan records: it matches, and every newer entry was skipped. */
  ghost predicate Eligible(vs: seq<Version>, channel: string, i: int)
  {
    0 <= i < |vs| && vs[i].tag == channel &&
    forall m :: 0 <= m < i ==> Skipped(vs[m], channel)
  }

  /** Some entry at or before which the scan ends (a match or a stable boundary). */
  ghost predicate Decided(vs: seq<Version>, channel: string)
  {
    exists k :: 0 <= k < |vs| && !Skipped(vs[k], channel)
  }

  /**
   * The index of the entry the scan of one component records, if any: the
   * first entry whose tag equals the channel, unless a stable entry comes
   * before it.
   */
  function FirstMatch(vs: seq<Version>, channel: string): (r: Option<nat>)
    ensures r.Some? ==> Eligible(vs, channel, r.value)
    ensures r.None? ==> forall i :: !Eligible(vs, channel, i)
  {
    if vs == [] then None
    else if vs[0].tag == channel then Some(0)
    else if vs[0].tag == "" then None
    else match FirstMatch(vs[1..], channel)
      case None =>
        assert forall i :: Eligible(vs, channel, i) ==> Eligible(vs[1..], channel, i - 1);
        None
      case Some(i) => Some(i + 1)
  }

  /** At most one entry is eligible: the earliest match is the only candidate. */
  lemma EligibleUnique(vs: seq<Version>, channel: string, i: int, j: int)
    requires Eligible(vs, channel, i) && Eligible(vs, channel, j)
    ensures i == j
  {
  }

  /**
   * What one component contributes to the selection: the storage path of the
   * component (storage-path mode) or the version number of the eligible entry.
   */
  function ComponentSelection(c: Component, channel: string, storagePath: bool): (r: Option<string>)
    ensures r.Some? <==> exists i :: Eligible(c.versions, channel, i)
    ensures forall i :: Eligible(c.versions, channel, i) ==>
              r == Some(if storagePath then c.filePath else c.versions[i].versionNumber)
  {
    match FirstMatch(c.versions, channel)
    case None => None
    case Some(i) =>
      assert forall j :: Eligible(c.versions, channel, j) ==> j == i by {
        forall j | Eligible(c.versions, channel, j) ensures j == i {
          EligibleUnique(c.versions, channel, i, j);
        }
      }
      Some(if storagePath then c.filePath else c.versions[i].versionNumber)
  }

  /** The identifiers of an export. */
  function Identifiers(exported: seq<Component>): set<string>
  {
    set c | c in exported :: c.identifier
  }

  /**
   * The selection map built over the export in order: each component that
   * selects something assigns its identifier, a later assignment replacing
   * an earlier one.
   */
  function ChannelVersions(exported: seq<Component>, channel: string, storagePath: bool): (r: map<string, string>)
    ensures r.Keys <= Identifiers(exported)
    decreases |exported|
  {
    if exported == [] then map[]
    else
      var last := exported[|exported| - 1];
      var m := ChannelVersions(exported[..|exported| - 1], channel, storagePath);
      match ComponentSelection(last, channel, storagePath)
      case None => m
      case Some(s) => m[last.identifier := s]
  }

  /** Identifiers are unique keys of the export. */
  ghost predicate UniqueIdentifiers(exported: seq<Component>)
  {
    forall i, j :: 0 <= i < j < |exported| ==> exported[i].identifier != exported[j].identifier
  }

  /** An identifier is a key exactly when some component with that identifier selects an entry. */
  lemma {:induction false} ChannelVersionsKeys(exported: seq<Component>, channel: string, storagePath: bool, id: string)
    ensures id in ChannelVersions(exported, channel, storagePath) <==>
            exists k :: 0 <= k < |exported| && exported[k].identifier == id &&
                        ComponentSelection(exported[k], channel, storagePath).Some?
    decreases |exported|
  {
    if exported != [] {
      var n := |exported| - 1;
      var front := exported[..n];
      ChannelVersionsKeys(front, channel, storagePath, id);
      assert forall k :: 0 <= k < n ==> front[k] == exported[k];
    }
  }

  /**
   * Component `k` is the last component with identifier `id` that selects
   * something, and it selects `s`.
   */
  ghost predicate LastSelector(exported: seq<Component>, channel: string, storagePath: bool, id: string, k: int, s: string)
  {
    0 <= k < |exported| && exported[k].identifier == id &&
    ComponentSelection(exported[k], channel, storagePath) == Some(s) &&
    forall j :: k < j < |exported| && exported[j].identifier == id ==>
      ComponentSelection(exported[j], channel, storagePath).None?
  }

  /** Appending a component that does not select under `id` keeps the last selector. */
  lemma LastSelectorExtend(front: seq<Component>, last: Component, channel: string, storagePath: bool, id: string, k: int, s: string)
    requires LastSelector(front, channel, storagePath, id, k, s)
    requires last.identifier != id || ComponentSelection(last, channel, storagePath).None?
    ensures LastSelector(front + [last], channel, storagePath, id, k, s)
  {
    var e := front + [last];
    assert e[k] == front[k];
    forall j | k < j < |e| && e[j].identifier == id
      ensures ComponentSelection(e[j], channel, storagePath).None?
    {
      if j < |front| {
        assert e[j] == front[j];
      }
    }
  }

  /**
   * The value under an identifier comes from the last component with that
   * identifier that selects something: later assignments replace earlier ones.
   */
  lemma {:induction false} ChannelVersionsLastWins(exported: seq<Component>, channel: string, storagePath: bool, id: string)
    requires id in ChannelVersions(exported, channel, storagePath)
    ensures exists k :: LastSelector(exported, channel, storagePath, id, k, ChannelVersions(exported, channel, storagePath)[id])
    decreases |exported|
  {
    var n := |exported| - 1;
    var front := exported[..n];
    var last := exported[n];
    var r := ChannelVersions(exported, channel, storagePath);
    var m := ChannelVersions(front, channel, storagePath);
    var sel := ComponentSelection(last, channel, storagePath);
    if last.identifier == id && sel.Some? {
      assert r[id] == sel.value;
      assert LastSelector(exported, channel, storagePath, id, n, r[id]);
    } else {
      if sel.None? {
        assert r == m;
      } else {
        assert r == m[last.identifier := sel.value];
      }
      ChannelVersionsLastWins(front, channel, storagePath, id);
      var k :| LastSelector(front, channel, storagePath, id, k, m[id]);
      assert exported == front + [last];
      LastSelectorExtend(front, last, channel, storagePath, id, k, m[id]);
    }
  }

  /**
   * With unique identifiers, each component's identifier is a key exactly when
   * it has an eligible entry (so an empty version list, or a stable entry
   * before any match, adds no key), and its value is what that component selects.
   */
  lemma SelectionPerComponent(exported: seq<Component>, channel: string, storagePath: bool, k: int)
    requires UniqueIdentifiers(exported) && 0 <= k < |exported|
    ensures var c := exported[k];
            c.identifier in ChannelVersions(exported, channel, storagePath) <==>
              exists i :: Eligible(c.versions, channel, i)
    ensures var c := exported[k];
            forall i :: Eligible(c.versions, channel, i) ==>
              ChannelVersions(exported, channel, storagePath)[c.identifier] ==
                (if storagePath then c.filePath else c.versions[i].versionNumber)
  {
    var c := exported[k];
    ChannelVersionsKeys(exported, channel, storagePath, c.identifier);
    if c.identifier in ChannelVersions(exported, channel, storagePath) {
      ChannelVersionsLastWins(exported, channel, storagePath, c.identifier);
    }
  }

  /** Storage-path mode and version mode select the same identifiers. */
  lemma {:induction false} ModesShareKeys(exported: seq<Component>, channel: string)
    ensures ChannelVersions(exported, channel, true).Keys == ChannelVersions(exported, channel, false).Keys
    decreases |exported|
  {
    if exported != [] {
      ModesShareKeys(exported[..|exported| - 1], channel);
    }
  }

  /**
   * In storage-path mode the value is the component's own file path, whatever
   * entry matched: the version entries only decide whether a key is present.
   */
  lemma StoragePathIsComponentFile(exported: seq<Component>, channel: string, k: int)
    requires UniqueIdentifiers(exported) && 0 <= k < |exported|
    requires exported[k].identifier in ChannelVersions(exported, channel, true)
    ensures ChannelVersions(exported, channel, true)[exported[k].identifier] == exported[k].filePath
  {
    SelectionPerComponent(exported, channel, true, k);
  }

  /**
   * On the stable channel "" the scan records the first stable entry and the
   * stop-at-stable branch never fires: something is selected exactly when
   * the component has a stable entry at all.
   */
  lemma {:induction false} StableSelectsNewestStable(vs: seq<Version>)
    ensures FirstMatch(vs, "").Some? <==> exists k :: 0 <= k < |vs| && vs[k].tag == ""
    ensures FirstMatch(vs, "").Some? ==>
              var i := FirstMatch(vs, "").value;
              vs[i].tag == "" && forall m :: 0 <= m < i ==> vs[m].tag != ""
  {
    if vs != [] && vs[0].tag != "" {
      StableSelectsNewestStable(vs[1..]);
      assert forall k :: 1 <= k < |vs| ==> vs[k] == vs[1..][k - 1];
    }
  }

  /**
   * Entries after the point where the scan ends are never examined: once a
   * prefix holds a match or a stable entry, appending entries changes nothing.
   */
  lemma {:induction false} LaterEntriesIgnored(vs: seq<Version>, rest: seq<Version>, channel: string)
    requires Decided(vs, channel)
    ensures FirstMatch(vs + rest, channel) == FirstMatch(vs, channel)
  {
    assert (vs + rest)[0] == vs[0];
    if Skipped(vs[0], channel) {
      var k :| 0 <= k < |vs| && !Skipped(vs[k], channel);
      assert !Skipped(vs[1..][k - 1], channel);
      assert (vs + rest)[1..] == vs[1..] + rest;
      LaterEntriesIgnored(vs[1..], rest, channel);
    }
  }

  /**
   * A newest stable entry hides older prerelease entries: "A" has 2.0.0,
   * 1.5.0-beta, 1.4.0 and "B" has 1.0.0. Because 2.0.0 is stable and newest,
   * "beta" selects nothing for either; the stable channel selects 2.0.0 and 1.0.0.
   */
  lemma StableEntryHidesOlderPrerelease()
    ensures var a := Component("A", "a/current", [Version("", "2.0.0"), Version("beta", "1.5.0-beta"), Version("", "1.4.0")]);
            var b := Component("B", "b/current", [Version("", "1.0.0")]);
            ChannelVersions([a, b], "beta", false) == map[] &&
            ChannelVersions([a, b], "", false) == map["A" := "2.0.0", "B" := "1.0.0"] &&
            ChannelVersions([a, b], "", true) == map["A" := "a/current", "B" := "b/current"]
  {
    var a := Component("A", "a/current", [Version("", "2.0.0"), Version("beta", "1.5.0-beta"), Version("", "1.4.0")]);
    var b := Component("B", "b/current", [Version("", "1.0.0")]);
    assert [a, b][..1] == [a];
    assert [a][..0] == [];
    assert Eligible(a.versions, "", 0);
    assert Eligible(b.versions, "", 0);
  }

  /** getChannelVersions: the nested scan with its break and continue. */
  method GetChannelVersions(exported: seq<Component>, channel: string, storagePath: bool)
    returns (versions: map<string, string>)
    ensures versions == ChannelVersions(exported, channel, storagePath)
  {
    versions := map[];
    for i := 0 to |exported|
      invariant versions == ChannelVersions(exported[..i], channel, storagePath)
    {
      var rv := exported[i];
      assert exported[..i + 1][..i] == exported[..i];
      for j := 0 to |rv.versions|
        invariant versions == ChannelVersions(exported[..i], channel, storagePath)
        invariant forall m :: 0 <= m < j ==> Skipped(rv.versions[m], channel)
      {
        var v := rv.versions[j];
        if v.tag != channel {
          if v.tag == "" {
            assert FirstMatch(rv.versions, channel).None?;
            break;
          }
          continue;
        }
        assert Eligible(rv.versions, channel, j);
        if storagePath {
          versions := versions[rv.identifier := rv.filePath];
        } else {
          versions := versions[rv.identifier := v.versionNumber];
        }
        break;
      }
    }
    assert exported[..|exported|] == exported;
  }
}
