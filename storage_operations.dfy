/**
 * What each public operation of the Google Drive storage does to the node
 * table and what it returns, as functions of the table before the call,
 * the configured root name and the arguments. The class in
 * google_drive_storage.dfy is proved to behave exactly like these.
 */
module StorageOperations {
  import opened Wrappers
  import opened JavaStrings
  import opened DriveTable
  import opened PathResolver

  /** The local java.io.File handed to storeFile: its name, whether it is a directory, its bytes. */
  datatype LocalFile = LocalFile(name: string, isDirectory: bool, content: seq<Byte>)

  /** The copy retrieveFile leaves in the temporary directory: its file name and its bytes. */
  datatype StagedFile = StagedFile(name: string, content: seq<Byte>)

  /** `path.trim().split("/")`: the segments the orchestrators walk, none of which holds a slash. */
  function Segments(path: string): (r: seq<string>)
    ensures forall k :: 0 <= k < |r| ==> '/' !in r[k]
  {
    Split(Trim(path))
  }

  /**
   * The folder an operation works in: the root itself for a blank path,
   * otherwise what discoverPath makes of the path's segments.
   */
  function ResolvePrefix(t: Table, rootId: Id, path: string, create: bool): (e: Effect<Result<Option<Id>, StorageError>>)
    requires t.Valid()
    ensures e.table.Valid()
    ensures create && e.result.Ok? ==> e.result.value.Some?
    ensures IsBlank(path) ==> e == Effect(t, Ok(Some(rootId)))
  {
    if IsBlank(path) then Effect(t, Ok(Some(rootId)))
    else Discover(t, Segments(path), rootId, create)
  }

  /**
   * The folder `path` already names under the root, creating nothing: the
   * reference against which the operations are stated. None when the root is
   * missing, when the path is made of slashes only, or when a segment has no
   * folder.
   */
  function ExistingFolder(t: Table, root: string, path: string): (r: Option<Id>)
    requires t.Valid()
    ensures r.Some? ==> r.value in t.nodes
    ensures r.Some? ==> !t.nodes[r.value].trashed
  {
    match LocateRoot(t, root)
    case Err(_) => None
    case Ok(rootId) =>
      if IsBlank(path) then Some(rootId)
      else if Segments(path) == [] then None
      else ResolveExisting(t, rootId, Segments(path))
  }

  /**
   * storeFile(file, path): a directory is refused before the store is
   * touched; otherwise find the root, walk the path creating what is
   * missing, delete every same-named node there and upload the file.
   */
  function StoreEffect(t: Table, root: string, file: LocalFile, path: Option<string>): (e: Effect<Outcome<StorageError>>)
    requires t.Valid()
    ensures e.table.Valid()
  {
    if file.isDirectory then Effect(t, Fail(IsFolder(file.name)))
    else
      var target := if path.Some? then path.value else "";
      match LocateRoot(t, root)
      case Err(err) => Effect(t, Fail(err))
      case Ok(rootId) =>
        var d := ResolvePrefix(t, rootId, target, true);
        match d.result
        case Err(err) => Effect(d.table, Fail(err))
        case Ok(parent) =>
          var cleared := Reconcile(d.table, parent.value, file.name);
          Effect(cleared.Insert(FileNode(file.name, parent.value, file.content)), Pass)
  }

  /**
   * removeFile(path): split off the leaf, find the root, walk the folder part
   * creating what is missing, then delete every node named like the leaf.
   */
  function RemoveFileEffect(t: Table, root: string, path: string): (e: Effect<Outcome<StorageError>>)
    requires t.Valid()
    ensures e.table.Valid()
  {
    var parts := SplitLeaf(path);
    match LocateRoot(t, root)
    case Err(err) => Effect(t, Fail(err))
    case Ok(rootId) =>
      var d := ResolvePrefix(t, rootId, parts.folder, true);
      match d.result
      case Err(err) => Effect(d.table, Fail(err))
      case Ok(parent) => Effect(Reconcile(d.table, parent.value, parts.leaf), Pass)
  }

  /** createFolder(path): refuse a blank path, then walk the path creating what is missing. */
  function CreateFolderEffect(t: Table, root: string, path: string): (e: Effect<Outcome<StorageError>>)
    requires t.Valid()
    ensures e.table.Valid()
  {
    if IsBlank(path) then Effect(t, Fail(EmptyPath))
    else
      match LocateRoot(t, root)
      case Err(err) => Effect(t, Fail(err))
      case Ok(rootId) =>
        var d := ResolvePrefix(t, rootId, path, true);
        match d.result
        case Err(err) => Effect(d.table, Fail(err))
        case Ok(_) => Effect(d.table, Pass)
  }

  /**
   * removeFolder(path): a blank path is a silent no-op; otherwise walk the
   * path with creation off for its first segment and delete the folder it
   * ends at, or fail when the walk stops.
   */
  function RemoveFolderEffect(t: Table, root: string, path: string): (e: Effect<Outcome<StorageError>>)
    requires t.Valid()
    ensures e.table.Valid()
  {
    if IsBlank(path) then Effect(t, Pass)
    else
      match LocateRoot(t, root)
      case Err(err) => Effect(t, Fail(err))
      case Ok(rootId) =>
        var d := ResolvePrefix(t, rootId, path, false);
        match d.result
        case Err(err) => Effect(d.table, Fail(err))
        case Ok(None) => Effect(d.table, Fail(NotFound(path)))
        case Ok(Some(folder)) => Effect(d.table.Remove(folder), Pass)
  }

  /**
   * The lookup of retrieveFileAsStream(path): null for a blank path, refusal
   * of a path that ends in '/', then the lookup of the leaf in the folder
   * part. The bytes of the node found stand for the stream.
   */
  function RetrieveStreamEffect(t: Table, root: string, path: string): (e: Effect<Result<Option<seq<Byte>>, StorageError>>)
    requires t.Valid()
    ensures e.table.Valid()
    ensures e.result == Ok(None) <==> IsBlank(path)
  {
    if IsBlank(path) then Effect(t, Ok(None))
    else if EndsWithSlash(Trim(path)) then Effect(t, Err(LooksLikeFolder))
    else LookupLeaf(t, root, SplitLeaf(path))
  }

  /**
   * Find the root, walk the folder part with creation off for its first
   * segment, and read the leaf there; a walk that stops names the folder part
   * in its error.
   */
  function LookupLeaf(t: Table, root: string, parts: PathParts): (e: Effect<Result<Option<seq<Byte>>, StorageError>>)
    requires t.Valid()
    ensures e.table.Valid()
    ensures e.result.Ok? ==> e.result.value.Some?
  {
    match LocateRoot(t, root)
    case Err(err) => Effect(t, Err(err))
    case Ok(rootId) =>
      var d := ResolvePrefix(t, rootId, parts.folder, false);
      match d.result
      case Err(err) => Effect(d.table, Err(err))
      case Ok(None) => Effect(d.table, Err(NotFound(parts.folder)))
      case Ok(Some(folder)) => Effect(d.table, ReadFromFolder(d.table, folder, parts))
  }

  /** The first non-folder named like the leaf in the folder, and its bytes; the folder part names a miss. */
  function ReadFromFolder(t: Table, folder: Id, parts: PathParts): (r: Result<Option<seq<Byte>>, StorageError>)
    requires t.Valid()
    ensures r.Ok? ==> r.value.Some?
    ensures r.Err? <==> t.MatchSet(FileQuery(parts.leaf, folder)) == {}
  {
    var files := t.Search(FileQuery(parts.leaf, folder));
    if files == [] then Err(NotFound(parts.folder))
    else Ok(Some(t.nodes[files[0]].content))
  }

  /**
   * retrieveFile(path): the same guards, then the stream's bytes copied to a
   * temporary file named after the leaf.
   */
  function RetrieveFileEffect(t: Table, root: string, path: string): (e: Effect<Result<Option<StagedFile>, StorageError>>)
    requires t.Valid()
    ensures e.table.Valid()
    ensures e.result == Ok(None) <==> IsBlank(path)
  {
    if IsBlank(path) then Effect(t, Ok(None))
    else if EndsWithSlash(Trim(path)) then Effect(t, Err(LooksLikeFolder))
    else
      var fileName := SplitLeaf(path).leaf;
      var s := RetrieveStreamEffect(t, root, path);
      match s.result
      case Err(err) => Effect(s.table, Err(err))
      case Ok(stream) => Effect(s.table, Ok(Some(StagedFile(fileName, stream.value))))
  }
}
