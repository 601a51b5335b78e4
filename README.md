# File system change validation

A Dafny model of the change validator of a background indexing service. The
service keeps an in-memory snapshot of a set of project trees; the file system
watcher delivers batches of raw path change notifications, and the validator
turns each batch into the cheapest correct update of the snapshot.

The validator has two parts.

- **The exclusion filter** (`PathIsExcluded`) decides whether one change lies
  inside the indexed surface of its project. A path that no project owns is
  excluded, and the project root itself is kept. Any other path is walked one
  name component at a time from the root. Every component whose name differs
  from the last name must pass the project's directory filter; a component
  whose name equals the last name, wherever it stands, is handled as the leaf.
  At the leaf, a deletion is always kept. Any other change is probed on the
  file system: a file goes to the file filter, a directory to the directory
  filter, and a path that is neither is kept. The walk returns at the first component that excludes the path.
- **The classifier** (`ProcessPathsChangedEvent`) keeps the changes that the
  filter does not exclude, in order. It then picks one outcome, and the first
  rule that matches wins:
  - `NoChanges` when nothing survives.
  - `UnknownChanges` when a surviving change has the project configuration
    file's name, current or obsolete, under the system path comparer.
  - `FileModificationsOnly` when every surviving change is a modification. It
    carries the resolved project file names in order, with the unresolved ones
    dropped.
  - `VariousFileChanges` otherwise. It carries the surviving changes.

Paths are sequences of name components. The validator's collaborators are the
fields of a `Collaborators` value, each a function:
- project discovery;
- the file system probe;
- project file name resolution;
- the path comparer;
- the current and obsolete project file names.

`IsExcluded` is the reference definition of the filter. It says a path is
excluded when some component of its walk excludes it. The method
`PathIsExcluded` performs the walk with a loop and is proved equal to
`IsExcluded`. It is also proved to stop at the first excluding component. The
classifier functions use `IsExcluded`.

The source decides whether a component is the leaf by comparing its NAME with
the last name, not by its position. An ancestor whose name equals the last name
therefore goes through the leaf step. The model keeps this behaviour
(`ComponentExcluded`). `IsExcludedPositional` is the walk with the leaf chosen
by position. `PositionalAgreesWhenLastNameUnique` proves that the two agree when
the last name occurs only once below the project root.
`RepeatedLeafNameSkipsDirectoryFilter` shows one place where they differ: the
deletion `p/build/x/build` survives although the directory `build` is rejected.
The comment at src/Server/FileSystem/FileSystemChangesValidator.cs:111 speaks of
the last component, but line 113 compares names, so the intended behaviour is
likely the positional one. The model follows the code; the discrepancy is
recorded under "## Findings".

## Model

| member | source | states |
|---|---|---|
| `FileSystemChangesValidator.RelativeNames` | src/Server/FileSystem/FileSystemChangesValidator.cs:100-103 | the name components below the project root, appended to the root, give back the changed path |
| `FileSystemChangesValidator.PathIsExcluded` | src/Server/FileSystem/FileSystemChangesValidator.cs:90-137 | a path without a project is excluded; the project root is kept; the walk's answer equals the reference definition `IsExcluded`; when it excludes, it stopped at the first component that excludes and every earlier component passed |
| `FileSystemChangesValidator.RejectedAncestorExcludes` | src/Server/FileSystem/FileSystemChangesValidator.cs:127-132 | a proper ancestor rejected by the directory filter excludes the path, provided its name differs from the last name |
| `FileSystemChangesValidator.DeletedKeepsLeaf` | src/Server/FileSystem/FileSystemChangesValidator.cs:113-116 | a deletion is excluded exactly when the directory filter rejects one of its components whose name differs from the last name; the leaf step never excludes it |
| `FileSystemChangesValidator.NonDeletedLeafDecision` | src/Server/FileSystem/FileSystemChangesValidator.cs:113-126 | with all ancestors accepted and the last name unique, a change that is not a deletion is excluded exactly when the probe says file and the file filter rejects, or says directory (not file) and the directory filter rejects; a path that is neither is kept |
| `FileSystemChangesValidator.PositionalAgreesWhenLastNameUnique` | src/Server/FileSystem/FileSystemChangesValidator.cs:113 | when the last name does not occur earlier among the names below the project root, the leaf test by name gives the same answer as the leaf test by position |
| `FileSystemChangesValidator.RejectedAncestorExcludesPositional` | src/Server/FileSystem/FileSystemChangesValidator.cs:111-132 | with the leaf chosen by position, a proper ancestor rejected by the directory filter excludes the path, whatever its name |
| `FileSystemChangesValidator.RepeatedLeafNameSkipsDirectoryFilter` | src/Server/FileSystem/FileSystemChangesValidator.cs:113-116 | the deletion `p/build/x/build` under a rejected `build` directory is kept by the leaf test by name and excluded by the leaf test by position |
| `FileSystemChangesValidator.ProjectFileChangeByFileName` | src/Server/FileSystem/FileSystemChangesValidator.cs:84-88 | `IsProjectFileChange` holds when the last name of the path equals the obsolete or the current project file name under the path comparer; it depends on that name only, not on the directory or the kind; under an ordinal comparer it holds exactly when the name is one of the two |
| `FileSystemChangesValidator.FilterChanges` | src/Server/FileSystem/FileSystemChangesValidator.cs:34-36 | the filtered batch is an order-preserving subsequence of the batch, and a change is in it exactly when it is in the batch and not excluded |
| `FileSystemChangesValidator.FilterChangesCounts` | src/Server/FileSystem/FileSystemChangesValidator.cs:34-36 | the filtered batch holds every copy of a surviving change and no copy of an excluded one |
| `FileSystemChangesValidator.FilterChangesAppend` | src/Server/FileSystem/FileSystemChangesValidator.cs:34-36 | each change is filtered on its own: filtering a concatenation is the concatenation of the filtered parts |
| `FileSystemChangesValidator.FilterChangesIdempotent` | src/Server/FileSystem/FileSystemChangesValidator.cs:34-36 | filtering a filtered batch again changes nothing |
| `FileSystemChangesValidator.ResolvedNames` | src/Server/FileSystem/FileSystemChangesValidator.cs:66-68 | the list is no longer than the changes; it is as long exactly when every change resolves; it holds exactly the names that some change resolves to |
| `FileSystemChangesValidator.ResolvedNamesAppend` | src/Server/FileSystem/FileSystemChangesValidator.cs:66-72 | resolution keeps the order of the changes: resolving a concatenation concatenates the resolved parts |
| `FileSystemChangesValidator.ProcessPathsChangedEvent` | src/Server/FileSystem/FileSystemChangesValidator.cs:32-88 | `NoChanges` exactly when every change is excluded; `UnknownChanges` exactly when a surviving change is a project file change, whatever the others are; `FileModificationsOnly` exactly when something survives and every survivor is a modification of a non-project file, carrying the resolved names of the filtered batch; `VariousFileChanges` exactly when a survivor is a creation or deletion and no survivor is a project file, carrying the non-empty filtered batch |
| `FileSystemChangesValidator.ProcessFilteredBatchIsSame` | src/Server/FileSystem/FileSystemChangesValidator.cs:32-82 | classifying the surviving changes of a batch again gives the same result |
| `FileSystemChangesValidator.ExcludedBatchContributesNothing` | src/Server/FileSystem/FileSystemChangesValidator.cs:47-53 | a batch classified `NoChanges` changes nothing when joined, before or after, with another batch |
| `FileSystemChangesValidator.UnknownChangesAbsorbs` | src/Server/FileSystem/FileSystemChangesValidator.cs:55-61 | a batch classified `UnknownChanges` makes any batch it is joined with `UnknownChanges` |
| `FileSystemChangesValidator.ModificationsOnlyBatchesMerge` | src/Server/FileSystem/FileSystemChangesValidator.cs:63-74 | two batches of modifications only join into one whose files are those of the first followed by those of the second |
| `FileSystemChangesValidator.VariousFileChangesMerge` | src/Server/FileSystem/FileSystemChangesValidator.cs:76-81 | a batch with structural changes joined with a batch that has no project file change stays structural and carries both filtered batches in order |
| `FileSystemChangesValidator.ExampleBuildChangeExcluded` | src/Server/FileSystem/FileSystemChangesValidator.cs:127-132 | with the directory `build` rejected, a modification of `p/build/x.cc` is excluded |
| `FileSystemChangesValidator.ExampleSourceChangesKept` | src/Server/FileSystem/FileSystemChangesValidator.cs:105-136 | any change of a `*.cc` file under `p/src` survives when the file filter keeps `*.cc` |
| `FileSystemChangesValidator.ExampleBuildDirectoryIsFiltered` | src/Server/FileSystem/FileSystemChangesValidator.cs:32-74 | modifications of `p/build/x.cc` and `p/src/y.cc` give `FileModificationsOnly` with the one name `src/y.cc` of project `p` |
| `FileSystemChangesValidator.ExampleCreateAndDelete` | src/Server/FileSystem/FileSystemChangesValidator.cs:76-81 | a creation and a deletion under `p/src` give `VariousFileChanges` with both, in order |
| `FileSystemChangesValidator.ExampleProjectFileChange` | src/Server/FileSystem/FileSystemChangesValidator.cs:55-61 | a modification of the project configuration file gives `UnknownChanges` |

## Findings

| source | as written | input that shows it | evidently intended | confidence | as-written member | corrected member |
|---|---|---|---|---|---|---|
| src/Server/FileSystem/FileSystemChangesValidator.cs:113 | a component is the leaf when its name equals the last name (`item == names.Last()`), so an ancestor that shares the last name skips the directory filter | a deletion of `p/build/x/build` in project `p` whose directory filter rejects `build` survives the filter | only the last component is the leaf (the comment at :111), so a rejected ancestor always excludes the path | medium, not executed | `FileSystemChangesValidator.RepeatedLeafNameSkipsDirectoryFilter` | `FileSystemChangesValidator.RejectedAncestorExcludesPositional` |

The classifier keeps the as-written filter, since that is what the program
does. `PositionalAgreesWhenLastNameUnique` shows that the two filters agree on
every path whose last name occurs once below the project root, so the
classifier's results carry over unchanged to the corrected filter on such paths.

## Left out

- Logging (src/Server/FileSystem/FileSystemChangesValidator.cs:38-45 and the single log lines) has no bearing on the result.
- Project discovery, the file system probe, project file name resolution and the system path comparer are function parameters. Their implementations are not part of this model.
- Project discovery is assumed to return a project whose root is a prefix of the path it was asked about (`LookupContains`). Splitting the path below the root relies on this; `PathHelpers.SplitPrefix` is not part of this model.
- Path strings are not split into components: paths arrive as component sequences, so empty components and separator handling are not modelled.
- Paths are compared by sequence equality. The platform's own path equality (for example, case-insensitive) is not modelled.
- The project file names `ConfigurationFileNames.ProjectFileName` and `ProjectFileNameObsolete` are fields of `Collaborators`, because their values are not part of this model. The example names in the worked examples are illustrative.
- The probe is a pure function of the path, so repeated probes during one walk agree. The live race between a notification and the probe is not modelled; its only effect is the answer the probe gives.
- Re-running the classifier on the same batch with unchanged collaborators gives the same result by construction, because it is a function.
- The source's result is a record with four flags, one set on each return path. The model's result is a four-case datatype, so exactly one case holds by construction.
- `FullPathChanges` is modelled as the plain list of surviving changes it wraps.
- The searchable files filter of a project plays no part in the validator and is left out of `Project`.
- src/Server/FileSystem/ProjectDiscoveryExtensions.cs (`GetProjectPath`, `IsFileSearchable`) only forwards to project discovery and the searchable files filter, whose behaviour is not part of this model.
