/**
 * UniversalGoogleDriveStorage: the storage class, over a Drive store whose
 * node table its calls read and update. Each public method is proved to
 * leave the store and return exactly what the matching function of
 * StorageOperations says, so the properties proved there are properties of
 * these methods.
 */
module GoogleDriveStorage {
  import opened Wrappers
  import opened JavaStrings
  import opened DriveTable
  import opened PathResolver
  import opened StorageOperations

  class UniversalGoogleDriveStorage {
    /** The Drive service the storage talks to. */
    const drive: DriveStore
    /** The name of the root folder, from the storage settings. */
    const root: string

    constructor (drive: DriveStore, root: string)
      ensures this.drive == drive && this.root == root
    {
      this.drive := drive;
      this.root := root;
    }

    /** The root lookup every operation opens with: the first non-trashed node named like the root. */
    method FindRoot() returns (r: Result<Id, StorageError>)
      requires drive.Valid()
      ensures r == LocateRoot(drive.State(), root)
    {
      var roots := drive.List(RootQuery(root));
      if roots == [] {
        return Err(RootMissing(root));
      }
      return Ok(roots[0]);
    }

    /** discoverPath(subFolders, index, parentId): the overload that always creates missing folders. */
    method DiscoverPathCreating(segments: seq<string>, index: nat, parent: Id) returns (r: Result<Option<Id>, StorageError>)
      requires drive.Valid() && index <= |segments|
      modifies drive
      ensures index == |segments| ==> r == Err(IndexOutOfBounds(index)) && drive.State() == old(drive.State())
      ensures index < |segments| ==>
                var w := Walk(old(drive.State()), segments[index..], parent, true);
                drive.State() == w.table && r == Ok(w.result)
      decreases |segments| - index, 1
    {
      r := DiscoverPath(segments, index, parent, true);
    }

    /**
     * discoverPath(subFolders, index, parentId, createFolder): look up the
     * segment at `index` under the parent, create it when missing and
     * allowed, and go on with the next segment through the creating
     * overload. Reading past the array is Java's index-out-of-bounds error.
     */
    method DiscoverPath(segments: seq<string>, index: nat, parent: Id, create: bool) returns (r: Result<Option<Id>, StorageError>)
      requires drive.Valid() && index <= |segments|
      modifies drive
      ensures index == |segments| ==> r == Err(IndexOutOfBounds(index)) && drive.State() == old(drive.State())
      ensures index < |segments| ==>
                var w := Walk(old(drive.State()), segments[index..], parent, create);
                drive.State() == w.table && r == Ok(w.result)
      decreases |segments| - index, 0
    {
      if index == |segments| {
        return Err(IndexOutOfBounds(index));
      }
      var name := segments[index];
      var current: Id;
      var folders := drive.List(FolderQuery(name, parent));
      if |folders| == 0 {
        if create {
          current := drive.Create(FolderNode(name, parent));
        } else {
          return Ok(None);
        }
      } else {
        current := folders[0];
      }
      if index + 1 == |segments| {
        return Ok(Some(current));
      }
      r := DiscoverPathCreating(segments, index + 1, current);
      assert segments[index..][1..] == segments[index + 1..];
    }

    /** The walk of a non-blank path that the orchestrators start from the root: discoverPath(path.split("/"), 0, rootId, create). */
    method ResolveFolder(rootId: Id, path: string, create: bool) returns (r: Result<Option<Id>, StorageError>)
      requires drive.Valid()
      modifies drive
      ensures Effect(drive.State(), r) == ResolvePrefix(old(drive.State()), rootId, path, create)
    {
      if IsBlank(path) {
        return Ok(Some(rootId));
      }
      r := DiscoverPath(Segments(path), 0, rootId, create);
      assert Segments(path)[0..] == Segments(path);
    }

    /** deleteFiles(parentId, fileName): delete, one by one, every node the sibling search lists. */
    method DeleteFiles(parent: Id, name: string)
      requires drive.Valid()
      modifies drive
      ensures drive.State() == Reconcile(old(drive.State()), parent, name)
    {
      ghost var before := drive.State();
      var found := drive.List(SiblingQuery(name, parent));
      if |found| > 0 {
        for i := 0 to |found|
          invariant drive.Valid()
          invariant drive.State() == before.RemoveAll(found[..i])
        {
          drive.Delete(found[i]);
          assert found[..i + 1][..i] == found[..i];
        }
      }
      assert found[..|found|] == found;
      RemoveListedIsReconcile(before, parent, name);
    }

    /** storeFile(file, path). */
    method StoreFile(file: LocalFile, path: Option<string>) returns (r: Outcome<StorageError>)
      requires drive.Valid()
      modifies drive
      ensures Effect(drive.State(), r) == StoreEffect(old(drive.State()), root, file, path)
    {
      if file.isDirectory {
        return Fail(IsFolder(file.name));
      }
      var target := if path.Some? then path.value else "";
      var located := FindRoot();
      if located.Err? {
        return Fail(located.error);
      }
      var folder := ResolveFolder(located.value, target, true);
      if folder.Err? {
        return Fail(folder.error);
      }
      var parent := folder.value.value;
      DeleteFiles(parent, file.name);
      var _ := drive.Create(FileNode(file.name, parent, file.content));
      return Pass;
    }

    /** removeFile(path). */
    method RemoveFile(path: string) returns (r: Outcome<StorageError>)
      requires drive.Valid()
      modifies drive
      ensures Effect(drive.State(), r) == RemoveFileEffect(old(drive.State()), root, path)
    {
      var parts := SplitLeaf(path);
      var located := FindRoot();
      if located.Err? {
        return Fail(located.error);
      }
      var folder := ResolveFolder(located.value, parts.folder, true);
      if folder.Err? {
        return Fail(folder.error);
      }
      DeleteFiles(folder.value.value, parts.leaf);
      return Pass;
    }

    /** createFolder(path). */
    method CreateFolder(path: string) returns (r: Outcome<StorageError>)
      requires drive.Valid()
      modifies drive
      ensures Effect(drive.State(), r) == CreateFolderEffect(old(drive.State()), root, path)
    {
      if IsBlank(path) {
        return Fail(EmptyPath);
      }
      var located := FindRoot();
      if located.Err? {
        return Fail(located.error);
      }
      var folder := ResolveFolder(located.value, path, true);
      if folder.Err? {
        return Fail(folder.error);
      }
      return Pass;
    }

    /** removeFolder(path). */
    method RemoveFolder(path: string) returns (r: Outcome<StorageError>)
      requires drive.Valid()
      modifies drive
      ensures Effect(drive.State(), r) == RemoveFolderEffect(old(drive.State()), root, path)
    {
      if IsBlank(path) {
        return Pass;
      }
      var located := FindRoot();
      if located.Err? {
        return Fail(located.error);
      }
      var folder := ResolveFolder(located.value, path, false);
      if folder.Err? {
        return Fail(folder.error);
      }
      if folder.value.None? {
        return Fail(NotFound(path));
      }
      drive.Delete(folder.value.value);
      return Pass;
    }

    /** retrieveFileAsStream(path): the bytes the stream reads, or null for a blank path. */
    method RetrieveFileAsStream(path: string) returns (r: Result<Option<seq<Byte>>, StorageError>)
      requires drive.Valid()
      modifies drive
      ensures Effect(drive.State(), r) == RetrieveStreamEffect(old(drive.State()), root, path)
    {
      if IsBlank(path) {
        return Ok(None);
      }
      if EndsWithSlash(Trim(path)) {
        return Err(LooksLikeFolder);
      }
      var parts := SplitLeaf(path);
      var located := FindRoot();
      if located.Err? {
        return Err(located.error);
      }
      var folder := ResolveFolder(located.value, parts.folder, false);
      if folder.Err? {
        return Err(folder.error);
      }
      if folder.value.None? {
        return Err(NotFound(parts.folder));
      }
      var files := drive.List(FileQuery(parts.leaf, folder.value.value));
      if |files| == 0 {
        return Err(NotFound(parts.folder));
      }
      var content := drive.Download(files[0]);
      return Ok(Some(content));
    }

    /** retrieveFile(path): the same guards, then the stream copied to a file named after the leaf. */
    method RetrieveFile(path: string) returns (r: Result<Option<StagedFile>, StorageError>)
      requires drive.Valid()
      modifies drive
      ensures Effect(drive.State(), r) == RetrieveFileEffect(old(drive.State()), root, path)
    {
      if IsBlank(path) {
        return Ok(None);
      }
      if EndsWithSlash(Trim(path)) {
        return Err(LooksLikeFolder);
      }
      var fileName := SplitLeaf(path).leaf;
      var stream := RetrieveFileAsStream(path);
      if stream.Err? {
        return Err(stream.error);
      }
      return Ok(Some(StagedFile(fileName, stream.value.value)));
    }
  }
}
