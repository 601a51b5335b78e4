/**
  The validator that turns a batch of raw path change notifications into the
  cheapest correct update of the file system snapshot: it drops every change
  that lies outside the indexed surface of its project, then classifies what
  is left as no change, a project configuration change, content modifications
  only, or structural changes.
*/
module FileSystemChangesValidator {
  import opened FileSystemTypes

  /** Exactly one of the four outcomes of classifying a batch. */
  datatype ValidationResult =
    | NoChanges
    | UnknownChanges
    | FileModificationsOnly(modifiedFiles: seq<ProjectFileName>)
    | VariousFileChanges(fileChanges: seq<PathChangeEntry>)

  // ---------------------------------------------------------------------------
  // Path exclusion
  // ---------------------------------------------------------------------------

  /** The name components of `path` below the project root `root`. */
  function RelativeNames(root: FullPath, path: FullPath): (names: seq<string>)
    requires IsPrefix(root, path)
    ensures root + names == path
  {
    path[|root|..]
  }

  /**
    The decision for a component handled as the leaf, with `rel` the relative
    path up to that component: a deletion is kept, otherwise the probe of the
    changed path selects the file filter or the directory filter, and a path
    that is neither a file nor a directory is kept.
  */
  predicate LeafExcluded(env: Collaborators, project: Project, change: PathChangeEntry, rel: RelativePath) {
    if change.kind == Deleted then false
    else
      var info := env.fileSystem(change.path);
      if info.isFile then !project.fileFilter(rel)
      else if info.isDirectory then !project.directoryFilter(rel)
      else false
  }

  /**
    Whether the walk excludes the path at component `i`. A component counts as
    the leaf when its NAME equals the last name, wherever it stands.
  */
  predicate ComponentExcluded(env: Collaborators, project: Project, change: PathChangeEntry, names: seq<string>, i: int)
    requires 0 <= i < |names|
  {
    var rel := names[..i + 1];
    if names[i] == names[|names| - 1] then LeafExcluded(env, project, change, rel)
    else !project.directoryFilter(rel)
  }

  /**
    Reference definition of the exclusion filter: a path without a project is
    excluded, the project root is kept, and any other path is excluded exactly
    when some component of its walk from the root excludes it.
  */
  predicate IsExcluded(env: Collaborators, change: PathChangeEntry)
    requires LookupContains(env, change.path)
  {
    match env.projectDiscovery(change.path)
    case None => true
    case Some(project) =>
      if change.path == project.rootPath then false
      else
        var names := RelativeNames(project.rootPath, change.path);
        exists i :: 0 <= i < |names| && ComponentExcluded(env, project, change, names, i)
  }

  /**
    The walk over the components of the changed path below its project root,
    returning at the first component that excludes it. The ghost `walked` is the
    index of that component (the number of components when none excludes).
  */
  method PathIsExcluded(env: Collaborators, change: PathChangeEntry) returns (excluded: bool, ghost walked: nat)
    requires LookupContains(env, change.path)
    ensures env.projectDiscovery(change.path).None? ==> excluded
    ensures env.projectDiscovery(change.path).Some? && change.path == env.projectDiscovery(change.path).value.rootPath ==> !excluded
    ensures excluded == IsExcluded(env, change)
    ensures excluded && env.projectDiscovery(change.path).Some? ==>
      var project := env.projectDiscovery(change.path).value;
      var names := RelativeNames(project.rootPath, change.path);
      && walked < |names|
      && ComponentExcluded(env, project, change, names, walked)
      && forall j :: 0 <= j < walked ==> !ComponentExcluded(env, project, change, names, j)
  {
    var path := change.path;
    var lookup := env.projectDiscovery(path);
    if lookup.None? {
      return true, 0;
    }
    var project := lookup.value;

    if path == project.rootPath {
      return false, 0;
    }

    var names := RelativeNames(project.rootPath, path);

    var pathToItem: RelativePath := [];
    var i := 0;
    while i < |names|
      invariant 0 <= i <= |names|
      invariant pathToItem == names[..i]
      invariant forall j :: 0 <= j < i ==> !ComponentExcluded(env, project, change, names, j)
    {
      var item := names[i];
      var relativePathToItem := pathToItem + [item];
      assert relativePathToItem == names[..i + 1];

      var exclude: bool;
      if item == names[|names| - 1] {
        if change.kind == Deleted {
          exclude := false;
        } else {
          var info := env.fileSystem(path);
          if info.isFile {
            exclude := !project.fileFilter(relativePathToItem);
          } else if info.isDirectory {
            exclude := !project.directoryFilter(relativePathToItem);
          } else {
            exclude := false;
          }
        }
      } else {
        exclude := !project.directoryFilter(relativePathToItem);
      }

      assert exclude == ComponentExcluded(env, project, change, names, i);
      if exclude {
        return true, i;
      }
      pathToItem := relativePathToItem;
      i := i + 1;
    }
    return false, |names|;
  }

  /**
    A directory filter that rejects a proper ancestor excludes the path, provided
    the ancestor's name differs from the last name.
  */
  lemma RejectedAncestorExcludes(env: Collaborators, change: PathChangeEntry, project: Project, k: nat)
    requires env.projectDiscovery(change.path) == Some(project)
    requires IsPrefix(project.rootPath, change.path)
    requires k + 1 < |change.path| - |project.rootPath|
    requires var names := RelativeNames(project.rootPath, change.path);
      names[k] != names[|names| - 1] && !project.directoryFilter(names[..k + 1])
    ensures IsExcluded(env, change)
  {
    var names := RelativeNames(project.rootPath, change.path);
    assert ComponentExcluded(env, project, change, names, k);
  }

  /**
    A deletion is never excluded by the leaf step: it is excluded exactly when
    the directory filter rejects one of its components whose name differs from
    the last name.
  */
  lemma DeletedKeepsLeaf(env: Collaborators, change: PathChangeEntry, project: Project)
    requires change.kind == Deleted
    requires env.projectDiscovery(change.path) == Some(project)
    requires IsPrefix(project.rootPath, change.path) && change.path != project.rootPath
    ensures var names := RelativeNames(project.rootPath, change.path);
      IsExcluded(env, change) <==>
        exists k :: 0 <= k < |names| && names[k] != names[|names| - 1] && !project.directoryFilter(names[..k + 1])
  {
    var names := RelativeNames(project.rootPath, change.path);
    if IsExcluded(env, change) {
      var k :| 0 <= k < |names| && ComponentExcluded(env, project, change, names, k);
      assert names[k] != names[|names| - 1];
    } else {
      forall k | 0 <= k < |names| && names[k] != names[|names| - 1]
        ensures project.directoryFilter(names[..k + 1])
      {
        assert !ComponentExcluded(env, project, change, names, k);
      }
    }
  }

  /**
    When every proper ancestor passes the directory filter and the last name is
    not repeated, a change that is not a deletion is excluded exactly when the
    probe says file and the file filter rejects the path, or the probe says
    directory (and not file) and the directory filter rejects it; a path that is
    neither is kept.
  */
  lemma NonDeletedLeafDecision(env: Collaborators, change: PathChangeEntry, project: Project)
    requires change.kind != Deleted
    requires env.projectDiscovery(change.path) == Some(project)
    requires IsPrefix(project.rootPath, change.path) && change.path != project.rootPath
    requires var names := RelativeNames(project.rootPath, change.path);
      forall k :: 0 <= k < |names| - 1 ==> names[k] != names[|names| - 1] && project.directoryFilter(names[..k + 1])
    ensures var names := RelativeNames(project.rootPath, change.path);
      var info := env.fileSystem(change.path);
      IsExcluded(env, change) <==>
        (info.isFile && !project.fileFilter(names)) || (!info.isFile && info.isDirectory && !project.directoryFilter(names))
  {
    var names := RelativeNames(project.rootPath, change.path);
    var last := |names| - 1;
    assert names[..last + 1] == names;
    if IsExcluded(env, change) {
      var k :| 0 <= k < |names| && ComponentExcluded(env, project, change, names, k);
      assert k == last;
    } else {
      assert !ComponentExcluded(env, project, change, names, last);
    }
  }

  /** Whether the walk excludes the path at component `i` when only the last position is the leaf. */
  predicate ComponentExcludedPositional(env: Collaborators, project: Project, change: PathChangeEntry, names: seq<string>, i: int)
    requires 0 <= i < |names|
  {
    var rel := names[..i + 1];
    if i == |names| - 1 then LeafExcluded(env, project, change, rel)
    else !project.directoryFilter(rel)
  }

  /** The exclusion filter with the leaf chosen by position rather than by name. */
  predicate IsExcludedPositional(env: Collaborators, change: PathChangeEntry)
    requires LookupContains(env, change.path)
  {
    match env.projectDiscovery(change.path)
    case None => true
    case Some(project) =>
      if change.path == project.rootPath then false
      else
        var names := RelativeNames(project.rootPath, change.path);
        exists i :: 0 <= i < |names| && ComponentExcludedPositional(env, project, change, names, i)
  }

  /** No name below the root other than the last one equals the last name. */
  predicate LastNameUnique(names: seq<string>) {
    forall k :: 0 <= k < |names| - 1 ==> names[k] != names[|names| - 1]
  }

  /**
    The leaf test by name and the leaf test by position agree when the last name
    occurs once among the names below the project root.
  */
  lemma PositionalAgreesWhenLastNameUnique(env: Collaborators, change: PathChangeEntry)
    requires LookupContains(env, change.path)
    requires env.projectDiscovery(change.path).Some? ==>
      LastNameUnique(RelativeNames(env.projectDiscovery(change.path).value.rootPath, change.path))
    ensures IsExcluded(env, change) == IsExcludedPositional(env, change)
  {
    match env.projectDiscovery(change.path)
    case None =>
    case Some(project) =>
      if change.path != project.rootPath {
        var names := RelativeNames(project.rootPath, change.path);
        if IsExcluded(env, change) {
          var i :| 0 <= i < |names| && ComponentExcluded(env, project, change, names, i);
          assert ComponentExcludedPositional(env, project, change, names, i);
        }
        if IsExcludedPositional(env, change) {
          var i :| 0 <= i < |names| && ComponentExcludedPositional(env, project, change, names, i);
          assert ComponentExcluded(env, project, change, names, i);
        }
      }
  }

  /**
    With the leaf chosen by position, a directory filter that rejects any proper
    ancestor excludes the path, whatever the ancestor's name.
  */
  lemma RejectedAncestorExcludesPositional(env: Collaborators, change: PathChangeEntry, project: Project, k: nat)
    requires env.projectDiscovery(change.path) == Some(project)
    requires IsPrefix(project.rootPath, change.path)
    requires k + 1 < |change.path| - |project.rootPath|
    requires !project.directoryFilter(RelativeNames(project.rootPath, change.path)[..k + 1])
    ensures IsExcludedPositional(env, change)
  {
    var names := RelativeNames(project.rootPath, change.path);
    assert ComponentExcludedPositional(env, project, change, names, k);
  }

  /**
    A deleted path "p/build/x/build" ends with a name that also names its
    ancestor "build". That ancestor is handled by the leaf step, so the rejected
    directory "build" never reaches the directory filter and the deletion
    survives, although the walk by position excludes it.
  */
  lemma RepeatedLeafNameSkipsDirectoryFilter()
    ensures var change := PathChangeEntry(["p", "build", "x", "build"], Deleted);
      var env := ExampleCollaborators();
      LookupContains(env, change.path) && !IsExcluded(env, change) && IsExcludedPositional(env, change)
  {
    var env := ExampleCollaborators();
    var change := PathChangeEntry(["p", "build", "x", "build"], Deleted);
    var project := ExampleProject();
    var names := RelativeNames(project.rootPath, change.path);
    assert names == ["build", "x", "build"];
    assert names[..1] == ["build"];
    assert ComponentExcludedPositional(env, project, change, names, 0);
    forall i | 0 <= i < |names|
      ensures !ComponentExcluded(env, project, change, names, i)
    {
      if i == 1 {
        assert names[..2] == ["build", "x"];
      }
    }
  }

  // ---------------------------------------------------------------------------
  // Classification
  // ---------------------------------------------------------------------------

  /** The change touches a project configuration file, under its current or its obsolete name. */
  predicate IsProjectFileChange(env: Collaborators, change: PathChangeEntry) {
    || env.pathComparer(FileName(change.path), env.projectFileNameObsolete)
    || env.pathComparer(FileName(change.path), env.projectFileName)
  }

  /**
    Only the last name of the changed path decides whether a change is a project
    file change: its directory and its kind play no part. Under an ordinal
    comparer it is one exactly when that name is the current or the obsolete
    project file name.
  */
  lemma ProjectFileChangeByFileName(env: Collaborators, change: PathChangeEntry, other: PathChangeEntry)
    ensures FileName(change.path) == FileName(other.path) ==>
      IsProjectFileChange(env, change) == IsProjectFileChange(env, other)
    ensures (forall x, y :: env.pathComparer(x, y) <==> x == y) ==>
      (IsProjectFileChange(env, change) <==>
        FileName(change.path) == env.projectFileNameObsolete || FileName(change.path) == env.projectFileName)
  {
  }

  /** The changes that survive the exclusion filter, in their original order. */
  function FilterChanges(env: Collaborators, changes: seq<PathChangeEntry>): (filtered: seq<PathChangeEntry>)
    requires LookupContainsAll(env, changes)
    ensures IsSubsequence(filtered, changes)
    ensures forall c :: c in filtered <==> c in changes && !IsExcluded(env, c)
  {
    if changes == [] then []
    else
      var rest := FilterChanges(env, changes[1..]);
      assert changes == [changes[0]] + changes[1..];
      if IsExcluded(env, changes[0]) then rest else [changes[0]] + rest
  }

  /**
    The filter keeps every copy of a surviving change and no copy of an
    excluded one; with `IsSubsequence` this determines the filtered batch.
  */
  lemma {:induction false} FilterChangesCounts(env: Collaborators, changes: seq<PathChangeEntry>, c: PathChangeEntry)
    requires LookupContainsAll(env, changes)
    requires LookupContains(env, c.path)
    ensures multiset(FilterChanges(env, changes))[c] == if IsExcluded(env, c) then 0 else multiset(changes)[c]
  {
    if changes != [] {
      FilterChangesCounts(env, changes[1..], c);
      assert changes == [changes[0]] + changes[1..];
    }
  }

  /** The resolved project file names of the changes, in order, with the unresolved ones dropped. */
  function ResolvedNames(env: Collaborators, changes: seq<PathChangeEntry>): (names: seq<ProjectFileName>)
    ensures |names| <= |changes|
    ensures |names| == |changes| <==> forall c :: c in changes ==> env.projectFileNames(c.path).Some?
    ensures forall n :: n in names <==> exists c :: c in changes && env.projectFileNames(c.path) == Some(n)
  {
    if changes == [] then []
    else
      var rest := ResolvedNames(env, changes[1..]);
      assert forall c :: c in changes <==> c == changes[0] || c in changes[1..];
      match env.projectFileNames(changes[0].path)
      case None => rest
      case Some(name) => [name] + rest
  }

  /**
    Classifies a batch: the first rule that matches the surviving changes wins,
    in the order no change, project file change, modifications only, and
    various changes.
  */
  function ProcessPathsChangedEvent(env: Collaborators, changes: seq<PathChangeEntry>): (r: ValidationResult)
    requires LookupContainsAll(env, changes)
    ensures r.NoChanges? <==> forall c :: c in changes ==> IsExcluded(env, c)
    ensures r.UnknownChanges? <==> exists c :: c in changes && !IsExcluded(env, c) && IsProjectFileChange(env, c)
    ensures r.FileModificationsOnly? <==>
      && (exists c :: c in changes && !IsExcluded(env, c))
      && (forall c :: c in changes && !IsExcluded(env, c) ==> !IsProjectFileChange(env, c) && c.kind == Changed)
    ensures r.VariousFileChanges? <==>
      && (exists c :: c in changes && !IsExcluded(env, c) && c.kind != Changed)
      && (forall c :: c in changes && !IsExcluded(env, c) ==> !IsProjectFileChange(env, c))
    ensures r.FileModificationsOnly? ==> r.modifiedFiles == ResolvedNames(env, FilterChanges(env, changes))
    ensures r.VariousFileChanges? ==> r.fileChanges == FilterChanges(env, changes) && r.fileChanges != []
  {
    var filteredChanges := FilterChanges(env, changes);
    if |filteredChanges| == 0 then
      NoChanges
    else if exists c :: c in filteredChanges && IsProjectFileChange(env, c) then
      UnknownChanges
    else if forall c :: c in filteredChanges ==> c.kind == Changed then
      FileModificationsOnly(ResolvedNames(env, filteredChanges))
    else
      VariousFileChanges(filteredChanges)
  }

  // ---------------------------------------------------------------------------
  // Batches
  // ---------------------------------------------------------------------------

  /** Every change is filtered on its own: filtering a concatenation filters each part. */
  lemma {:induction false} FilterChangesAppend(env: Collaborators, a: seq<PathChangeEntry>, b: seq<PathChangeEntry>)
    requires LookupContainsAll(env, a) && LookupContainsAll(env, b)
    ensures LookupContainsAll(env, a + b)
    ensures FilterChanges(env, a + b) == FilterChanges(env, a) + FilterChanges(env, b)
  {
    assert LookupContainsAll(env, a + b);
    if a == [] {
      assert a + b == b;
    } else {
      var ab := a + b;
      assert ab[0] == a[0] && ab[1..] == a[1..] + b;
      FilterChangesAppend(env, a[1..], b);
      var head := if IsExcluded(env, a[0]) then [] else [a[0]];
      var restA, restB := FilterChanges(env, a[1..]), FilterChanges(env, b);
      assert FilterChanges(env, ab[1..]) == restA + restB;
      assert FilterChanges(env, ab) == head + (restA + restB);
      assert FilterChanges(env, a) == head + restA;
      assert head + (restA + restB) == (head + restA) + restB;
    }
  }

  /** Filtering the surviving changes again keeps all of them. */
  lemma {:induction false} FilterChangesIdempotent(env: Collaborators, changes: seq<PathChangeEntry>)
    requires LookupContainsAll(env, changes)
    ensures LookupContainsAll(env, FilterChanges(env, changes))
    ensures FilterChanges(env, FilterChanges(env, changes)) == FilterChanges(env, changes)
  {
    if changes != [] {
      var rest := FilterChanges(env, changes[1..]);
      FilterChangesIdempotent(env, changes[1..]);
      if !IsExcluded(env, changes[0]) {
        FilterChangesAppend(env, [changes[0]], rest);
        assert FilterChanges(env, [changes[0]]) == [changes[0]];
      }
    }
  }

  /** Resolving the names of a concatenation resolves each part, in order. */
  lemma {:induction false} ResolvedNamesAppend(env: Collaborators, a: seq<PathChangeEntry>, b: seq<PathChangeEntry>)
    ensures ResolvedNames(env, a + b) == ResolvedNames(env, a) + ResolvedNames(env, b)
  {
    if a == [] {
      assert a + b == b;
    } else {
      assert (a + b)[1..] == a[1..] + b;
      ResolvedNamesAppend(env, a[1..], b);
    }
  }

  /** Classifying the surviving changes of a batch again gives the same result. */
  lemma ProcessFilteredBatchIsSame(env: Collaborators, changes: seq<PathChangeEntry>)
    requires LookupContainsAll(env, changes)
    ensures LookupContainsAll(env, FilterChanges(env, changes))
    ensures ProcessPathsChangedEvent(env, FilterChanges(env, changes)) == ProcessPathsChangedEvent(env, changes)
  {
    FilterChangesIdempotent(env, changes);
  }

  /** A batch whose every change is excluded makes no difference to the batch it is joined with. */
  lemma ExcludedBatchContributesNothing(env: Collaborators, a: seq<PathChangeEntry>, b: seq<PathChangeEntry>)
    requires LookupContainsAll(env, a) && LookupContainsAll(env, b)
    requires ProcessPathsChangedEvent(env, a) == NoChanges
    ensures LookupContainsAll(env, a + b) && LookupContainsAll(env, b + a)
    ensures ProcessPathsChangedEvent(env, a + b) == ProcessPathsChangedEvent(env, b)
    ensures ProcessPathsChangedEvent(env, b + a) == ProcessPathsChangedEvent(env, b)
  {
    FilterChangesAppend(env, a, b);
    FilterChangesAppend(env, b, a);
    var fa := FilterChanges(env, a);
    assert fa == [];
    assert fa + FilterChanges(env, b) == FilterChanges(env, b);
    assert FilterChanges(env, b) + fa == FilterChanges(env, b);
  }

  /** A surviving project file change makes any batch it is joined with a project file change. */
  lemma UnknownChangesAbsorbs(env: Collaborators, a: seq<PathChangeEntry>, b: seq<PathChangeEntry>)
    requires LookupContainsAll(env, a) && LookupContainsAll(env, b)
    requires ProcessPathsChangedEvent(env, a) == UnknownChanges
    ensures LookupContainsAll(env, a + b) && LookupContainsAll(env, b + a)
    ensures ProcessPathsChangedEvent(env, a + b) == UnknownChanges
    ensures ProcessPathsChangedEvent(env, b + a) == UnknownChanges
  {
    var c :| c in a && !IsExcluded(env, c) && IsProjectFileChange(env, c);
    assert c in a + b && c in b + a;
  }

  /** Two batches of modifications only make one, whose files are those of the first followed by those of the second. */
  lemma ModificationsOnlyBatchesMerge(env: Collaborators, a: seq<PathChangeEntry>, b: seq<PathChangeEntry>)
    requires LookupContainsAll(env, a) && LookupContainsAll(env, b)
    requires ProcessPathsChangedEvent(env, a).FileModificationsOnly?
    requires ProcessPathsChangedEvent(env, b).FileModificationsOnly?
    ensures LookupContainsAll(env, a + b)
    ensures ProcessPathsChangedEvent(env, a + b) ==
      FileModificationsOnly(ProcessPathsChangedEvent(env, a).modifiedFiles + ProcessPathsChangedEvent(env, b).modifiedFiles)
  {
    FilterChangesAppend(env, a, b);
    ResolvedNamesAppend(env, FilterChanges(env, a), FilterChanges(env, b));
  }

  /**
    A batch with structural changes stays one when joined with a batch without
    project file changes, and carries the surviving changes of both in order.
  */
  lemma VariousFileChangesMerge(env: Collaborators, a: seq<PathChangeEntry>, b: seq<PathChangeEntry>)
    requires LookupContainsAll(env, a) && LookupContainsAll(env, b)
    requires ProcessPathsChangedEvent(env, a).VariousFileChanges?
    requires !ProcessPathsChangedEvent(env, b).UnknownChanges?
    ensures LookupContainsAll(env, a + b)
    ensures ProcessPathsChangedEvent(env, a + b) ==
      VariousFileChanges(ProcessPathsChangedEvent(env, a).fileChanges + FilterChanges(env, b))
  {
    FilterChangesAppend(env, a, b);
    var c :| c in a && !IsExcluded(env, c) && c.kind != Changed;
    assert c in a + b;
  }

  // ---------------------------------------------------------------------------
  // Worked examples
  // ---------------------------------------------------------------------------

  predicate EndsWith(s: string, suffix: string) {
    |suffix| <= |s| && s[|s| - |suffix|..] == suffix
  }

  /**
    A project rooted at "p" whose directory filter rejects the top-level
    directory "build" and whose file filter keeps "*.cc" files and the project
    configuration file.
  */
  function ExampleProject(): Project {
    Project(
      ["p"],
      (rel: RelativePath) => !(|rel| == 1 && rel[0] == "build"),
      (rel: RelativePath) => |rel| > 0 && (EndsWith(rel[|rel| - 1], ".cc") || rel[|rel| - 1] == "vs-chromium-project.txt"))
  }

  /** Every path under "p" belongs to the example project and is probed as a file. */
  function ExampleCollaborators(): Collaborators {
    Collaborators(
      (path: FullPath) => if IsPrefix(["p"], path) then Some(ExampleProject()) else None,
      (path: FullPath) => FileInfoSnapshot(true, false),
      (path: FullPath) => if IsPrefix(["p"], path) then Some(ProjectFileName(["p"], path[1..])) else None,
      (x: string, y: string) => x == y,
      "vs-chromium-project.txt",
      "project.vs-chromium-project")
  }

  /** A modification under the excluded "build" directory is dropped. */
  lemma ExampleBuildChangeExcluded()
    ensures IsExcluded(ExampleCollaborators(), PathChangeEntry(["p", "build", "x.cc"], Changed))
  {
    var env := ExampleCollaborators();
    var project := ExampleProject();
    var change := PathChangeEntry(["p", "build", "x.cc"], Changed);
    var names := RelativeNames(project.rootPath, change.path);
    assert names == ["build", "x.cc"] && names[..1] == ["build"];
    assert ComponentExcluded(env, project, change, names, 0);
  }

  /** Any change of a "*.cc" file directly under "src" survives the filter. */
  lemma ExampleSourceChangesKept(kind: PathChangeKind, name: string)
    requires EndsWith(name, ".cc")
    ensures !IsExcluded(ExampleCollaborators(), PathChangeEntry(["p", "src", name], kind))
  {
    var env := ExampleCollaborators();
    var project := ExampleProject();
    var change := PathChangeEntry(["p", "src", name], kind);
    var names := RelativeNames(project.rootPath, change.path);
    assert names == ["src", name] && names[..1] == ["src"] && names[..2] == names;
    forall i | 0 <= i < |names|
      ensures !ComponentExcluded(env, project, change, names, i)
    {
    }
  }

  /** A modification under the excluded "build" directory is dropped; the other one is kept. */
  lemma ExampleBuildDirectoryIsFiltered()
    ensures var env := ExampleCollaborators();
      var changes := [PathChangeEntry(["p", "build", "x.cc"], Changed), PathChangeEntry(["p", "src", "y.cc"], Changed)];
      && LookupContainsAll(env, changes)
      && ProcessPathsChangedEvent(env, changes) == FileModificationsOnly([ProjectFileName(["p"], ["src", "y.cc"])])
  {
    var env := ExampleCollaborators();
    var excludedChange := PathChangeEntry(["p", "build", "x.cc"], Changed);
    var keptChange := PathChangeEntry(["p", "src", "y.cc"], Changed);
    ExampleBuildChangeExcluded();
    assert EndsWith("y.cc", ".cc");
    ExampleSourceChangesKept(Changed, "y.cc");
    assert [excludedChange, keptChange] == [excludedChange] + [keptChange];
    assert ProcessPathsChangedEvent(env, [excludedChange]) == NoChanges by {
      assert FilterChanges(env, [excludedChange]) == [];
    }
    assert ProcessPathsChangedEvent(env, [keptChange]) == FileModificationsOnly([ProjectFileName(["p"], ["src", "y.cc"])]) by {
      assert FilterChanges(env, [keptChange]) == [keptChange];
      assert !IsProjectFileChange(env, keptChange);
      assert ResolvedNames(env, [keptChange]) == [ProjectFileName(["p"], ["src", "y.cc"])];
    }
    ExcludedBatchContributesNothing(env, [excludedChange], [keptChange]);
  }

  /** A creation and a deletion are structural changes, carried in their order. */
  lemma ExampleCreateAndDelete()
    ensures var env := ExampleCollaborators();
      var changes := [PathChangeEntry(["p", "src", "new.cc"], Created), PathChangeEntry(["p", "src", "old.cc"], Deleted)];
      && LookupContainsAll(env, changes)
      && ProcessPathsChangedEvent(env, changes) == VariousFileChanges(changes)
  {
    var env := ExampleCollaborators();
    var created := PathChangeEntry(["p", "src", "new.cc"], Created);
    var deleted := PathChangeEntry(["p", "src", "old.cc"], Deleted);
    assert EndsWith("new.cc", ".cc") && EndsWith("old.cc", ".cc");
    ExampleSourceChangesKept(Created, "new.cc");
    ExampleSourceChangesKept(Deleted, "old.cc");
    assert [created, deleted] == [created] + [deleted];
    assert ProcessPathsChangedEvent(env, [created]) == VariousFileChanges([created]) by {
      assert FilterChanges(env, [created]) == [created];
      assert !IsProjectFileChange(env, created);
    }
    assert ProcessPathsChangedEvent(env, [deleted]) == VariousFileChanges([deleted]) by {
      assert FilterChanges(env, [deleted]) == [deleted];
      assert !IsProjectFileChange(env, deleted);
    }
    VariousFileChangesMerge(env, [created], [deleted]);
  }

  /** A modification of the project configuration file asks for a full reload. */
  lemma ExampleProjectFileChange()
    ensures var env := ExampleCollaborators();
      var changes := [PathChangeEntry(["p", "vs-chromium-project.txt"], Changed)];
      && LookupContainsAll(env, changes)
      && ProcessPathsChangedEvent(env, changes) == UnknownChanges
  {
    var env := ExampleCollaborators();
    var project := ExampleProject();
    var change := PathChangeEntry(["p", "vs-chromium-project.txt"], Changed);
    assert !IsExcluded(env, change) by {
      var names := RelativeNames(project.rootPath, change.path);
      assert names == ["vs-chromium-project.txt"] && names[..1] == names;
      assert !ComponentExcluded(env, project, change, names, 0);
    }
    assert FilterChanges(env, [change]) == [change];
    assert IsProjectFileChange(env, change);
  }
}
