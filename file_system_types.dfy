/**
  Values the change validator consumes: raw change notifications, projects with
  their inclusion filters, and the collaborators the validator is built with
  (project discovery, the file system probe, project file name resolution and
  the system path comparer), each given as a function value.
*/
module FileSystemTypes {

  datatype Option<+T> = None | Some(value: T)

  /** An absolute path, as its sequence of name components. */
  type FullPath = seq<string>

  /** A path relative to a project root, as its sequence of name components. */
  type RelativePath = seq<string>

  datatype PathChangeKind = Created | Deleted | Changed

  /** One raw notification from the file system watcher. */
  datatype PathChangeEntry = PathChangeEntry(path: FullPath, kind: PathChangeKind)

  /**
    What the file system reports for a path at the moment it is probed. Both
    flags are false when the entry no longer exists or cannot be inspected.
  */
  datatype FileInfoSnapshot = FileInfoSnapshot(isFile: bool, isDirectory: bool)

  /** A project root with the inclusion filters of its directories and files. */
  datatype Project = Project(
    rootPath: FullPath,
    directoryFilter: RelativePath -> bool,
    fileFilter: RelativePath -> bool)

  /** A file identified by its project root and its path relative to that root. */
  datatype ProjectFileName = ProjectFileName(projectRoot: FullPath, relativePath: RelativePath)

  /**
    The collaborators of the validator. `projectDiscovery` answers which project
    owns a path, `fileSystem` probes a path, `projectFileNames` resolves a path to
    its project file name (None where the source yields a null name),
    `pathComparer` is the string equality of the system path comparer, and the
    last two fields are the current and the obsolete name of a project
    configuration file.
  */
  datatype Collaborators = Collaborators(
    projectDiscovery: FullPath -> Option<Project>,
    fileSystem: FullPath -> FileInfoSnapshot,
    projectFileNames: FullPath -> Option<ProjectFileName>,
    pathComparer: (string, string) -> bool,
    projectFileName: string,
    projectFileNameObsolete: string)

  predicate IsPrefix<T(==)>(prefix: seq<T>, s: seq<T>) {
    |prefix| <= |s| && s[..|prefix|] == prefix
  }

  /** The last name component of a path; the empty name for an empty path. */
  function FileName(path: FullPath): string {
    if |path| == 0 then "" else path[|path| - 1]
  }

  /**
    Project discovery only hands out a project whose root contains the path it
    was asked about.
  */
  predicate LookupContains(env: Collaborators, path: FullPath) {
    match env.projectDiscovery(path)
    case None => true
    case Some(project) => IsPrefix(project.rootPath, path)
  }

  predicate LookupContainsAll(env: Collaborators, changes: seq<PathChangeEntry>) {
    forall c :: c in changes ==> LookupContains(env, c.path)
  }

  /** `s` can be obtained from `t` by deleting elements, keeping the order of the rest. */
  ghost predicate IsSubsequence<T>(s: seq<T>, t: seq<T>)
    decreases |t|
  {
    s == [] || (t != [] && ((s[0] == t[0] && IsSubsequence(s[1..], t[1..])) || IsSubsequence(s, t[1..])))
  }
}
