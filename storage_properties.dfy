/**
 * What the public operations promise, stated against the reference
 * `ExistingFolder` (the folder a path already names) and against each other:
 * when each one fails and that a failure leaves the store as it was, what a
 * success does to the store, that a stored file is what a later retrieval
 * returns, that createFolder is idempotent, and what removeFolder and
 * removeFile delete.
 */
module StorageProperties {
  import opened Wrappers
  import opened JavaStrings
  import opened DriveTable
  import opened PathResolver
  import opened StorageOperations

  /** Some non-trashed node carries the root's name. */
  predicate HasRoot(t: Table, root: string) {
    t.MatchSet(RootQuery(root)) != {}
  }

  /** A path that is not blank but holds nothing but slashes once trimmed, as "/" and " // " do. */
  predicate OnlySlashes(path: string) {
    !IsBlank(path) && AllSlashes(Trim(path))
  }

  /** The path's first segment has a folder under the root: the one step where creation can be off. */
  predicate FirstSegmentExists(t: Table, root: string, path: string)
    requires t.Valid()
  {
    && LocateRoot(t, root).Ok?
    && Segments(path) != []
    && t.MatchSet(FolderQuery(Segments(path)[0], LocateRoot(t, root).value)) != {}
  }

  // ---------------------------------------------------------------------
  // Resolving the folder part of a path
  // ---------------------------------------------------------------------

  /** A non-blank path splits into no segment at all exactly when it holds only slashes. */
  lemma SegmentsEmptyIffOnlySlashes(path: string)
    ensures !IsBlank(path) && Segments(path) == [] <==> OnlySlashes(path)
  {
    SplitEmptyIffOnlySlashes(Trim(path));
  }

  /** Resolving a folder part fails exactly for a path of slashes, and then touches nothing. */
  lemma PrefixFailsOnlyOnSlashes(t: Table, rootId: Id, path: string, create: bool)
    requires t.Valid()
    ensures var d := ResolvePrefix(t, rootId, path, create);
            && (d.result.Err? <==> OnlySlashes(path))
            && (d.result.Err? ==> d == Effect(t, Err(IndexOutOfBounds(0))))
  {
    SegmentsEmptyIffOnlySlashes(path);
  }

  /** Resolving a folder part only adds folders under fresh ids. */
  lemma PrefixGrows(t: Table, rootId: Id, path: string, create: bool)
    requires t.Valid()
    ensures var d := ResolvePrefix(t, rootId, path, create);
            Grows(t, d.table) && AddsFolders(t, d.table)
  {
    if !IsBlank(path) && Segments(path) != [] {
      WalkGrows(t, Segments(path), rootId, create);
    }
  }

  /** After resolving a folder part, the path names the folder the resolution returned. */
  lemma PrefixResolves(t: Table, root: string, path: string, create: bool)
    requires t.Valid() && LocateRoot(t, root).Ok?
    ensures var d := ResolvePrefix(t, LocateRoot(t, root).value, path, create);
            d.result.Ok? && d.result.value.Some? ==> ExistingFolder(d.table, root, path) == d.result.value
  {
    var rootId := LocateRoot(t, root).value;
    var d := ResolvePrefix(t, rootId, path, create);
    PrefixGrows(t, rootId, path, create);
    LocateRootSurvivesGrowth(t, d.table, root);
    if !IsBlank(path) && Segments(path) != [] {
      WalkResolves(t, Segments(path), rootId, create);
    }
  }

  /** Resolving a folder part that already exists reuses it and creates nothing. */
  lemma PrefixReuses(t: Table, root: string, path: string, create: bool)
    requires t.Valid() && ExistingFolder(t, root, path).Some?
    ensures LocateRoot(t, root).Ok?
    ensures ResolvePrefix(t, LocateRoot(t, root).value, path, create) == Effect(t, Ok(ExistingFolder(t, root, path)))
  {
    var rootId := LocateRoot(t, root).value;
    if !IsBlank(path) {
      WalkReusesExisting(t, Segments(path), rootId, create);
    }
  }

  // ---------------------------------------------------------------------
  // Deleting and uploading keep the folders a path runs through
  // ---------------------------------------------------------------------

  /** Deleting the nodes named `name` under one parent leaves every search for another name alone. */
  lemma ReconcileKeepsOtherNames(t: Table, parent: Id, name: string, q: Query)
    requires t.Valid() && q.name != name
    ensures Reconcile(t, parent, name).MatchSet(q) == t.MatchSet(q)
  {
  }

  /** Adding a node a query does not match leaves that query's matches alone. */
  lemma InsertKeepsOthers(t: Table, n: Node, q: Query)
    requires t.Valid() && !q.Matches(n)
    ensures t.Insert(n).MatchSet(q) == t.MatchSet(q)
  {
  }

  /** Tables that agree on the root's matches and on every folder search of a path's segments resolve it alike. */
  lemma SameResolution(t: Table, t': Table, root: string, path: string)
    requires t.Valid() && t'.Valid()
    requires t.MatchSet(RootQuery(root)) == t'.MatchSet(RootQuery(root))
    requires forall s, x :: s in Segments(path) ==> t.MatchSet(FolderQuery(s, x)) == t'.MatchSet(FolderQuery(s, x))
    ensures ExistingFolder(t, root, path) == ExistingFolder(t', root, path)
  {
    SearchDependsOnMatches(t, t', RootQuery(root));
    if LocateRoot(t, root).Ok? && !IsBlank(path) && Segments(path) != [] {
      ResolveSameFolders(t, t', LocateRoot(t, root).value, Segments(path));
    }
  }

  /**
   * Deleting the nodes named `name` under a parent keeps what a path resolves
   * to, as long as neither the root nor any segment of the path is called
   * `name`.
   */
  lemma ReconcileKeepsResolution(t: Table, parent: Id, name: string, root: string, path: string)
    requires t.Valid()
    requires name != root && name !in Segments(path)
    ensures ExistingFolder(Reconcile(t, parent, name), root, path) == ExistingFolder(t, root, path)
  {
    var t' := Reconcile(t, parent, name);
    ReconcileKeepsOtherNames(t, parent, name, RootQuery(root));
    forall s, x | s in Segments(path)
      ensures t.MatchSet(FolderQuery(s, x)) == t'.MatchSet(FolderQuery(s, x))
    {
      ReconcileKeepsOtherNames(t, parent, name, FolderQuery(s, x));
    }
    SameResolution(t, t', root, path);
  }

  /** Uploading a file not named like the root keeps what every path resolves to. */
  lemma UploadKeepsResolution(t: Table, name: string, parent: Id, content: seq<Byte>, root: string, path: string)
    requires t.Valid() && name != root
    ensures ExistingFolder(t.Insert(FileNode(name, parent, content)), root, path) == ExistingFolder(t, root, path)
  {
    var n := FileNode(name, parent, content);
    var t' := t.Insert(n);
    InsertKeepsOthers(t, n, RootQuery(root));
    forall s, x | s in Segments(path)
      ensures t.MatchSet(FolderQuery(s, x)) == t'.MatchSet(FolderQuery(s, x))
    {
      InsertKeepsOthers(t, n, FolderQuery(s, x));
    }
    SameResolution(t, t', root, path);
  }

  /**
   * In a forest, deleteFiles in the folder a path names keeps that path
   * naming it, whatever the deleted name: the root and every folder on the
   * way lie below that folder's children in rank, so none of them is deleted.
   */
  lemma ReconcileKeepsFolder(t: Table, root: string, path: string, folder: Id, name: string)
    requires t.Valid() && Forest(t) && ExistingFolder(t, root, path) == Some(folder)
    ensures ExistingFolder(Reconcile(t, folder, name), root, path) == Some(folder)
  {
    var t' := Reconcile(t, folder, name);
    var rank :| RankedBy(t, rank);
    var rootId := LocateRoot(t, root).value;
    var q := RootQuery(root);
    if !IsBlank(path) {
      ResolveClimbs(t, rank, rootId, Segments(path));
    }
    assert !SiblingQuery(name, folder).Matches(t.nodes[rootId]) by {
      if t.nodes[rootId].parent == Some(folder) {
        ParentRanksLower(t, rank, rootId);
      }
    }
    assert forall k :: k in t'.MatchSet(q) ==> k in t.MatchSet(q);
    LeastIsFirst(t', q, rootId);
    if !IsBlank(path) {
      ResolveUnderReconcile(t, rank, rootId, Segments(path), folder, name);
    }
  }

  /** Uploading a node that is not a folder keeps what every path resolves to under an existing root. */
  lemma UploadFileKeepsFolder(t: Table, root: string, path: string, n: Node)
    requires t.Valid() && !n.isFolder && LocateRoot(t, root).Ok?
    ensures ExistingFolder(t.Insert(n), root, path) == ExistingFolder(t, root, path)
  {
    var t' := t.Insert(n);
    assert Grows(t, t');
    LocateRootSurvivesGrowth(t, t', root);
    forall s, x | s in Segments(path)
      ensures t.MatchSet(FolderQuery(s, x)) == t'.MatchSet(FolderQuery(s, x))
    {
      InsertKeepsOthers(t, n, FolderQuery(s, x));
    }
    ResolveSameFolders(t, t', LocateRoot(t, root).value, Segments(path));
  }

  /** Resolving the folder part from a node of a forest keeps the table a forest. */
  lemma PrefixKeepsForest(t: Table, rootId: Id, path: string, create: bool)
    requires t.Valid() && Forest(t) && rootId in t.nodes
    ensures Forest(ResolvePrefix(t, rootId, path, create).table)
  {
    if !IsBlank(path) && Segments(path) != [] {
      WalkKeepsForest(t, Segments(path), rootId, create);
    }
  }

  // ---------------------------------------------------------------------
  // storeFile
  // ---------------------------------------------------------------------

  /** A null target path stores into the root, as the empty path does. */
  lemma StoreNullPathIsRoot(t: Table, root: string, file: LocalFile)
    requires t.Valid()
    ensures StoreEffect(t, root, file, None) == StoreEffect(t, root, file, Some(""))
  {
  }

  /**
   * storeFile fails exactly when the local file is a directory, when the root
   * is missing, or when the target holds only slashes, with that error; and a
   * failed store leaves the table as it was.
   */
  lemma StoreOutcome(t: Table, root: string, file: LocalFile, path: string)
    requires t.Valid()
    ensures var e := StoreEffect(t, root, file, Some(path));
            && (e.result == Pass <==> !file.isDirectory && HasRoot(t, root) && !OnlySlashes(path))
            && (file.isDirectory ==> e.result == Fail(IsFolder(file.name)))
            && (!file.isDirectory && !HasRoot(t, root) ==> e.result == Fail(RootMissing(root)))
            && (!file.isDirectory && HasRoot(t, root) && OnlySlashes(path) ==> e.result == Fail(IndexOutOfBounds(0)))
            && (e.result.Fail? ==> e.table == t)
  {
    if !file.isDirectory && HasRoot(t, root) {
      PrefixFailsOnlyOnSlashes(t, LocateRoot(t, root).value, path, true);
    }
  }

  /**
   * Storing into a folder that already exists creates no folder: it deletes
   * every node named like the file in that folder and uploads the file there.
   */
  lemma StoreIntoExistingFolder(t: Table, root: string, file: LocalFile, path: string)
    requires t.Valid() && !file.isDirectory
    requires ExistingFolder(t, root, path).Some?
    ensures var folder := ExistingFolder(t, root, path).value;
            StoreEffect(t, root, file, Some(path))
              == Effect(Reconcile(t, folder, file.name).Insert(FileNode(file.name, folder, file.content)), Pass)
  {
    PrefixReuses(t, root, path, true);
  }

  /**
   * The last step of a store, in any folder: the uploaded file, under the
   * next id, is then the only node in that folder carrying its name, and
   * every node not named like the file there is unchanged.
   */
  lemma UploadReplaces(w: Table, parent: Id, file: LocalFile)
    requires w.Valid()
    ensures var t' := Reconcile(w, parent, file.name).Insert(FileNode(file.name, parent, file.content));
            && t'.next == w.next + 1
            && w.next in t'.nodes
            && t'.nodes[w.next] == FileNode(file.name, parent, file.content)
            && t'.MatchSet(SiblingQuery(file.name, parent)) == {w.next}
            && (forall k :: k in w.nodes && !SiblingQuery(file.name, parent).Matches(w.nodes[k]) ==>
                  k in t'.nodes && t'.nodes[k] == w.nodes[k])
            && (forall k :: k in t'.nodes ==> k in w.nodes || k == w.next)
  {
  }

  /** In a forest, the same last step in the folder a path names keeps the path naming it, and keeps the forest. */
  lemma UploadKeepsFolder(w: Table, parent: Id, file: LocalFile, root: string, path: string)
    requires w.Valid() && Forest(w) && ExistingFolder(w, root, path) == Some(parent)
    ensures var t' := Reconcile(w, parent, file.name).Insert(FileNode(file.name, parent, file.content));
            ExistingFolder(t', root, path) == Some(parent) && Forest(t')
  {
    var cleared := Reconcile(w, parent, file.name);
    ReconcileKeepsFolder(w, root, path, parent, file.name);
    UploadFileKeepsFolder(cleared, root, path, FileNode(file.name, parent, file.content));
    ReconcileKeepsForest(w, parent, file.name);
    InsertKeepsForest(cleared, FileNode(file.name, parent, file.content));
  }

  /**
   * A successful store is the upload step applied to a table that has only
   * gained folders and in which the target path names the upload's folder.
   */
  lemma StoreUnfolds(t: Table, root: string, file: LocalFile, path: string) returns (w: Table, parent: Id)
    requires t.Valid()
    requires StoreEffect(t, root, file, Some(path)).result == Pass
    ensures w.Valid() && Grows(t, w) && AddsFolders(t, w)
    ensures ExistingFolder(w, root, path) == Some(parent)
    ensures StoreEffect(t, root, file, Some(path)).table
            == Reconcile(w, parent, file.name).Insert(FileNode(file.name, parent, file.content))
    ensures Forest(t) ==> Forest(w)
  {
    var rootId := LocateRoot(t, root).value;
    var d := ResolvePrefix(t, rootId, path, true);
    w, parent := d.table, d.result.value.value;
    PrefixGrows(t, rootId, path, true);
    PrefixResolves(t, root, path, true);
    if Forest(t) {
      PrefixKeepsForest(t, rootId, path, true);
    }
  }

  /**
   * The upload step on a table that has only gained folders: the file under
   * the newest id is the only node of its name in its folder, every node of
   * the original table not named like it there is unchanged, and every other
   * new node is a folder.
   */
  lemma UploadAfterGrowth(t: Table, w: Table, parent: Id, file: LocalFile, t': Table)
    requires t.Valid() && w.Valid() && Grows(t, w) && AddsFolders(t, w)
    requires t' == Reconcile(w, parent, file.name).Insert(FileNode(file.name, parent, file.content))
    ensures t.next <= w.next && t'.next == w.next + 1
    ensures w.next in t'.nodes && t'.nodes[w.next] == FileNode(file.name, parent, file.content)
    ensures t'.MatchSet(SiblingQuery(file.name, parent)) == {w.next}
    ensures forall k :: k in t.nodes && !SiblingQuery(file.name, parent).Matches(t.nodes[k]) ==>
              k in t'.nodes && t'.nodes[k] == t.nodes[k]
    ensures forall k :: k in t'.nodes && k !in t.nodes && k != w.next ==> t'.nodes[k].isFolder
  {
    UploadReplaces(w, parent, file);
  }

  /**
   * After a successful store the target path names a folder in which the
   * uploaded file, under the newest id, is the only node carrying the file's
   * name; every other node that was there is unchanged, and every other new
   * node is a folder the walk created.
   */
  lemma StorePlacesFile(t: Table, root: string, file: LocalFile, path: string, t': Table) returns (folder: Id, id: Id)
    requires t.Valid()
    requires StoreEffect(t, root, file, Some(path)) == Effect(t', Pass)
    requires Forest(t)
    ensures t'.Valid() && Forest(t') && ExistingFolder(t', root, path) == Some(folder)
    ensures t.next <= id && t'.next == id + 1
    ensures id in t'.nodes && t'.nodes[id] == FileNode(file.name, folder, file.content)
    ensures t'.MatchSet(SiblingQuery(file.name, folder)) == {id}
    ensures forall k :: k in t.nodes && !SiblingQuery(file.name, folder).Matches(t.nodes[k]) ==>
              k in t'.nodes && t'.nodes[k] == t.nodes[k]
    ensures forall k :: k in t'.nodes && k !in t.nodes && k != id ==> t'.nodes[k].isFolder
  {
    var w;
    w, folder := StoreUnfolds(t, root, file, path);
    UploadKeepsFolder(w, folder, file, root, path);
    UploadAfterGrowth(t, w, folder, file, t');
    id := w.next;
  }

  /** A stored file is what retrieval of `path + "/" + name` then reads back, creating nothing. */
  lemma StoreThenRetrieve(t: Table, root: string, file: LocalFile, path: string, t': Table)
    requires t.Valid()
    requires StoreEffect(t, root, file, Some(path)) == Effect(t', Pass)
    requires '/' !in file.name && !IsBlank(file.name)
    requires Forest(t)
    ensures t'.Valid()
    ensures RetrieveStreamEffect(t', root, path + "/" + file.name) == Effect(t', Ok(Some(file.content)))
  {
    var folder, id := StorePlacesFile(t, root, file, path, t');
    RetrieveOnlyFile(t', root, path, file.name, folder, id);
  }

  /** Retrieval of `path + "/" + name` reads the one node of that name in the folder the path names. */
  lemma RetrieveOnlyFile(t: Table, root: string, path: string, name: string, folder: Id, id: Id)
    requires t.Valid() && ExistingFolder(t, root, path) == Some(folder)
    requires '/' !in name && !IsBlank(name)
    requires t.MatchSet(SiblingQuery(name, folder)) == {id}
    requires id in t.nodes && !t.nodes[id].isFolder
    ensures RetrieveStreamEffect(t, root, path + "/" + name) == Effect(t, Ok(Some(t.nodes[id].content)))
  {
    var full := path + "/" + name;
    LeafPathParts(path, name, full);
    OnlySiblingIsOnlyFile(t, name, folder, id);
    RetrieveSingleFile(t, root, full, folder, id);
  }

  /** A retrieval whose folder exists and holds exactly one non-folder of the leaf's name reads that one. */
  lemma RetrieveSingleFile(t: Table, root: string, path: string, folder: Id, id: Id)
    requires t.Valid() && !IsBlank(path) && !EndsWithSlash(Trim(path))
    requires ExistingFolder(t, root, SplitLeaf(path).folder) == Some(folder)
    requires t.MatchSet(FileQuery(SplitLeaf(path).leaf, folder)) == {id}
    ensures id in t.nodes
    ensures RetrieveStreamEffect(t, root, path) == Effect(t, Ok(Some(t.nodes[id].content)))
  {
    var parts := SplitLeaf(path);
    StreamIsLookup(t, root, path);
    LookupInExisting(t, root, parts, folder);
    ReadSingle(t, folder, parts, id);
  }

  /** Past its two guards a retrieval is the lookup of the path's leaf. */
  lemma StreamIsLookup(t: Table, root: string, path: string)
    requires t.Valid() && !IsBlank(path) && !EndsWithSlash(Trim(path))
    ensures RetrieveStreamEffect(t, root, path) == LookupLeaf(t, root, SplitLeaf(path))
  {
  }

  /** Reading a folder that holds one non-folder of the leaf's name reads that one. */
  lemma ReadSingle(t: Table, folder: Id, parts: PathParts, id: Id)
    requires t.Valid() && t.MatchSet(FileQuery(parts.leaf, folder)) == {id}
    ensures id in t.nodes
    ensures ReadFromFolder(t, folder, parts) == Ok(Some(t.nodes[id].content))
  {
    LeastIsFirst(t, FileQuery(parts.leaf, folder), id);
  }

  /** `path + "/" + name` is a retrievable path whose folder part is `path` and whose leaf is `name`. */
  lemma LeafPathParts(path: string, name: string, full: string)
    requires '/' !in name && !IsBlank(name)
    requires full == path + "/" + name
    ensures !IsBlank(full) && !EndsWithSlash(Trim(full))
    ensures SplitLeaf(full) == PathParts(path, name)
  {
    TrimOfLeafPath(path, name);
    SplitLeafOfJoin(path, name);
  }

  /** When one file is the only node of its name in a folder, it is also the least non-folder of that name there. */
  lemma OnlySiblingIsOnlyFile(t: Table, name: string, folder: Id, id: Id)
    requires t.Valid()
    requires t.MatchSet(SiblingQuery(name, folder)) == {id}
    requires id in t.nodes && !t.nodes[id].isFolder
    ensures t.MatchSet(FileQuery(name, folder)) == {id}
  {
    assert forall k :: k in t.MatchSet(FileQuery(name, folder)) ==> k in t.MatchSet(SiblingQuery(name, folder));
    assert id in t.MatchSet(SiblingQuery(name, folder));
  }

  /** Storing a second file under the same name and path replaces the first: retrieval reads the second. */
  lemma StoreTwiceOverwrites(t: Table, root: string, first: LocalFile, second: LocalFile, path: string, t1: Table)
    requires t.Valid()
    requires StoreEffect(t, root, first, Some(path)) == Effect(t1, Pass)
    requires !second.isDirectory && second.name == first.name
    requires '/' !in first.name && !IsBlank(first.name)
    requires Forest(t)
    ensures t1.Valid()
    ensures var e := StoreEffect(t1, root, second, Some(path));
            && e.result == Pass
            && RetrieveStreamEffect(e.table, root, path + "/" + first.name) == Effect(e.table, Ok(Some(second.content)))
  {
    StoreOutcome(t, root, first, path);
    var folder, id := StorePlacesFile(t, root, first, path, t1);
    StoreOutcome(t1, root, second, path);
    var e := StoreEffect(t1, root, second, Some(path));
    StoreThenRetrieve(t1, root, second, path, e.table);
  }

  // ---------------------------------------------------------------------
  // retrieveFileAsStream and retrieveFile
  // ---------------------------------------------------------------------

  /**
   * A retrieval whose folder part already exists creates nothing: it reads
   * the least non-folder named like the leaf in that folder, and fails with
   * the folder part when there is none.
   */
  lemma RetrieveFromExisting(t: Table, root: string, path: string)
    requires t.Valid() && !IsBlank(path) && !EndsWithSlash(Trim(path))
    requires ExistingFolder(t, root, SplitLeaf(path).folder).Some?
    ensures var parts := SplitLeaf(path);
            var q := FileQuery(parts.leaf, ExistingFolder(t, root, parts.folder).value);
            var e := RetrieveStreamEffect(t, root, path);
            && e.table == t
            && (e.result.Ok? <==> t.MatchSet(q) != {})
            && (t.MatchSet(q) == {} ==> e.result == Err(NotFound(parts.folder)))
            && (forall m :: m in t.MatchSet(q) && (forall k :: k in t.MatchSet(q) ==> m <= k) ==>
                  e.result == Ok(Some(t.nodes[m].content)))
  {
    var parts := SplitLeaf(path);
    var folder := ExistingFolder(t, root, parts.folder).value;
    StreamIsLookup(t, root, path);
    LookupInExisting(t, root, parts, folder);
    ReadReadsLeast(t, folder, parts);
  }

  /**
   * In a forest, a retrieval whose folder part does not name a folder fails.
   * With the root present and a folder part that is not all slashes, the
   * error names the folder part: either the first segment is missing, or the
   * walk creates the missing folders and the lookup runs in an empty one.
   */
  lemma RetrieveMissingFolderFails(t: Table, root: string, path: string)
    requires t.Valid() && Forest(t) && !IsBlank(path) && !EndsWithSlash(Trim(path))
    requires ExistingFolder(t, root, SplitLeaf(path).folder).None?
    ensures var e := RetrieveStreamEffect(t, root, path);
            && e.result.Err?
            && (HasRoot(t, root) && !OnlySlashes(SplitLeaf(path).folder) ==> e.result == Err(NotFound(SplitLeaf(path).folder)))
  {
    var parts := SplitLeaf(path);
    StreamIsLookup(t, root, path);
    SegmentsEmptyIffOnlySlashes(parts.folder);
    if HasRoot(t, root) && !OnlySlashes(parts.folder) {
      var rootId := LocateRoot(t, root).value;
      var segments := Segments(parts.folder);
      var q := FolderQuery(segments[0], rootId);
      var found := t.Search(q);
      if found != [] {
        FirstIsLeast(t, q);
        WalkMissEndsChildless(t, segments[1..], found[0]);
        var w := Walk(t, segments[1..], found[0], true);
        assert Walk(t, segments, rootId, false) == w;
        assert w.table.MatchSet(FileQuery(parts.leaf, w.result.value)) == {};
      }
    }
  }

  /**
   * In a forest, retrieval of a path that passes the guards succeeds exactly
   * when its folder part names a folder holding a non-folder named like the
   * leaf.
   */
  lemma RetrieveSucceedsIff(t: Table, root: string, path: string)
    requires t.Valid() && Forest(t) && !IsBlank(path) && !EndsWithSlash(Trim(path))
    ensures var parts := SplitLeaf(path);
            var f := ExistingFolder(t, root, parts.folder);
            (RetrieveStreamEffect(t, root, path).result.Ok? <==> f.Some? && t.MatchSet(FileQuery(parts.leaf, f.value)) != {})
  {
    if ExistingFolder(t, root, SplitLeaf(path).folder).Some? {
      RetrieveFromExisting(t, root, path);
    } else {
      RetrieveMissingFolderFails(t, root, path);
    }
  }

  /** Reading a folder reads the least non-folder of the leaf's name there. */
  lemma ReadReadsLeast(t: Table, folder: Id, parts: PathParts)
    requires t.Valid()
    ensures var q := FileQuery(parts.leaf, folder);
            forall m :: m in t.MatchSet(q) && (forall k :: k in t.MatchSet(q) ==> m <= k) ==>
              ReadFromFolder(t, folder, parts) == Ok(Some(t.nodes[m].content))
  {
    var q := FileQuery(parts.leaf, folder);
    forall m | m in t.MatchSet(q) && (forall k :: k in t.MatchSet(q) ==> m <= k)
      ensures ReadFromFolder(t, folder, parts) == Ok(Some(t.nodes[m].content))
    {
      LeastIsFirst(t, q, m);
    }
  }

  /** The lookup of a leaf whose folder part already exists reads in that folder and creates nothing. */
  lemma LookupInExisting(t: Table, root: string, parts: PathParts, folder: Id)
    requires t.Valid() && ExistingFolder(t, root, parts.folder) == Some(folder)
    ensures LookupLeaf(t, root, parts) == Effect(t, ReadFromFolder(t, folder, parts))
  {
    PrefixReuses(t, root, parts.folder, false);
  }

  /**
   * retrieveFile reaches the store exactly as retrieveFileAsStream does and
   * stages the bytes the stream reads under the path's leaf name.
   */
  lemma RetrieveFileStagesStream(t: Table, root: string, path: string)
    requires t.Valid()
    ensures var s := RetrieveStreamEffect(t, root, path);
            var f := RetrieveFileEffect(t, root, path);
            && f.table == s.table
            && (f.result.Err? <==> s.result.Err?)
            && (s.result.Err? ==> f.result == Err(s.result.error))
            && (s.result.Ok? && s.result.value.Some? ==>
                  f.result == Ok(Some(StagedFile(SplitLeaf(path).leaf, s.result.value.value))))
  {
  }

  /**
   * Retrieval refuses before reaching the store on a blank path (null) and on
   * a path ending in '/'; past those guards it fails without changing the
   * table when the root is missing, when the folder part holds only slashes,
   * or when the folder part's first segment has no folder.
   */
  lemma RetrieveOutcome(t: Table, root: string, path: string)
    requires t.Valid()
    ensures var e := RetrieveStreamEffect(t, root, path);
            var folder := SplitLeaf(path).folder;
            && (IsBlank(path) ==> e == Effect(t, Ok(None)))
            && (!IsBlank(path) && EndsWithSlash(Trim(path)) ==> e == Effect(t, Err(LooksLikeFolder)))
            && (!IsBlank(path) && !EndsWithSlash(Trim(path)) && !HasRoot(t, root) ==>
                  e == Effect(t, Err(RootMissing(root))))
            && (!IsBlank(path) && !EndsWithSlash(Trim(path)) && HasRoot(t, root) && OnlySlashes(folder) ==>
                  e == Effect(t, Err(IndexOutOfBounds(0))))
            && ((!IsBlank(path) && !EndsWithSlash(Trim(path)) && HasRoot(t, root) && !IsBlank(folder)
                 && !OnlySlashes(folder) && !FirstSegmentExists(t, root, folder)) ==>
                  e == Effect(t, Err(NotFound(folder))))
  {
    if !IsBlank(path) && !EndsWithSlash(Trim(path)) {
      var parts := SplitLeaf(path);
      StreamIsLookup(t, root, path);
      LookupOutcome(t, root, parts);
    }
  }

  /** The failures of the leaf lookup that leave the table as it was. */
  lemma LookupOutcome(t: Table, root: string, parts: PathParts)
    requires t.Valid()
    ensures var e := LookupLeaf(t, root, parts);
            && (!HasRoot(t, root) ==> e == Effect(t, Err(RootMissing(root))))
            && (HasRoot(t, root) && OnlySlashes(parts.folder) ==> e == Effect(t, Err(IndexOutOfBounds(0))))
            && ((HasRoot(t, root) && !IsBlank(parts.folder) && !OnlySlashes(parts.folder)
                 && !FirstSegmentExists(t, root, parts.folder)) ==> e == Effect(t, Err(NotFound(parts.folder))))
  {
    if HasRoot(t, root) {
      var rootId := LocateRoot(t, root).value;
      PrefixFailsOnlyOnSlashes(t, rootId, parts.folder, false);
      if !IsBlank(parts.folder) && !OnlySlashes(parts.folder) {
        SegmentsEmptyIffOnlySlashes(parts.folder);
        WalkStopsOnlyAtFirst(t, Segments(parts.folder), rootId, false);
      }
    }
  }

  /**
   * A retrieval deletes and changes nothing; the most it does is leave behind
   * folders that the walk of its folder part created past the first segment.
   */
  lemma RetrieveOnlyAddsFolders(t: Table, root: string, path: string)
    requires t.Valid()
    ensures var t' := RetrieveStreamEffect(t, root, path).table;
            Grows(t, t') && AddsFolders(t, t')
  {
    if !IsBlank(path) && !EndsWithSlash(Trim(path)) {
      StreamIsLookup(t, root, path);
      LookupOnlyAddsFolders(t, root, SplitLeaf(path));
    }
  }

  /** The leaf lookup only adds folders: the ones its walk creates. */
  lemma LookupOnlyAddsFolders(t: Table, root: string, parts: PathParts)
    requires t.Valid()
    ensures var t' := LookupLeaf(t, root, parts).table;
            Grows(t, t') && AddsFolders(t, t')
  {
    if HasRoot(t, root) {
      PrefixGrows(t, LocateRoot(t, root).value, parts.folder, false);
    }
  }

  // ---------------------------------------------------------------------
  // createFolder
  // ---------------------------------------------------------------------

  /**
   * createFolder fails exactly on a blank path, a missing root or a path of
   * slashes, with that error, and a failure leaves the table as it was.
   */
  lemma CreateFolderOutcome(t: Table, root: string, path: string)
    requires t.Valid()
    ensures var e := CreateFolderEffect(t, root, path);
            && (e.result == Pass <==> !IsBlank(path) && HasRoot(t, root) && !OnlySlashes(path))
            && (IsBlank(path) ==> e.result == Fail(EmptyPath))
            && (!IsBlank(path) && !HasRoot(t, root) ==> e.result == Fail(RootMissing(root)))
            && (!IsBlank(path) && HasRoot(t, root) && OnlySlashes(path) ==> e.result == Fail(IndexOutOfBounds(0)))
            && (e.result.Fail? ==> e.table == t)
  {
    if !IsBlank(path) && HasRoot(t, root) {
      PrefixFailsOnlyOnSlashes(t, LocateRoot(t, root).value, path, true);
    }
  }

  /** A successful createFolder is the walk of the whole path from the root, creating what is missing. */
  lemma CreateFolderUnfolds(t: Table, root: string, path: string, t': Table)
    requires t.Valid()
    requires CreateFolderEffect(t, root, path) == Effect(t', Pass)
    ensures LocateRoot(t, root).Ok? && !IsBlank(path)
    ensures var d := ResolvePrefix(t, LocateRoot(t, root).value, path, true);
            d.result.Ok? && d.result.value.Some? && d.table == t'
  {
  }

  /**
   * After a successful createFolder the path names a folder called like its
   * last segment; the table has only gained non-trashed folders, and it is
   * unchanged exactly when the path named a folder already.
   */
  lemma CreateFolderMakesPath(t: Table, root: string, path: string, t': Table)
    requires t.Valid()
    requires CreateFolderEffect(t, root, path) == Effect(t', Pass)
    ensures t'.Valid() && Grows(t, t') && AddsFolders(t, t')
    ensures Segments(path) != []
    ensures ExistingFolder(t', root, path).Some?
    ensures var f := ExistingFolder(t', root, path).value;
            && t'.nodes[f].isFolder
            && t'.nodes[f].name == Segments(path)[|Segments(path)| - 1]
    ensures t' == t <==> ExistingFolder(t, root, path).Some?
  {
    CreateFolderUnfolds(t, root, path, t');
    var rootId := LocateRoot(t, root).value;
    PrefixGrows(t, rootId, path, true);
    PrefixResolves(t, root, path, true);
    WalkCreatesNothingIffResolved(t, Segments(path), rootId);
  }

  /** `"/" + name`, for a slash-free name that does not end in a blank, is not blank and splits into "" and `name`. */
  lemma LeadingSlashSegments(name: string)
    requires name != "" && '/' !in name && !IsTrimmable(name[|name| - 1])
    ensures !IsBlank("/" + name) && Segments("/" + name) == ["", name]
  {
    var path := "/" + name;
    assert path[0] == '/' && path[|path| - 1] == name[|name| - 1];
    TrimKeepsUntrimmed(path);
    SplitKeepsLeadingEmpty(name);
  }

  /**
   * A leading slash is a segment of its own: createFolder("/" + name), as in
   * "/myFolder", ends at a folder called `name` that sits under a folder
   * named "" under the root, not directly under the root.
   */
  lemma CreateFolderLeadingSlash(t: Table, root: string, name: string, t': Table) returns (empty: Id, folder: Id)
    requires t.Valid()
    requires name != "" && '/' !in name && !IsTrimmable(name[|name| - 1])
    requires CreateFolderEffect(t, root, "/" + name) == Effect(t', Pass)
    ensures LocateRoot(t, root).Ok? && LocateRoot(t', root) == LocateRoot(t, root)
    ensures ExistingFolder(t', root, "/" + name) == Some(folder)
    ensures folder in t'.nodes && t'.nodes[folder].isFolder
    ensures t'.nodes[folder].name == name && t'.nodes[folder].parent == Some(empty)
    ensures empty in t'.nodes && t'.nodes[empty].isFolder
    ensures t'.nodes[empty].name == "" && t'.nodes[empty].parent == Some(LocateRoot(t, root).value)
  {
    CreateFolderMakesPath(t, root, "/" + name, t');
    LocateRootSurvivesGrowth(t, t', root);
    LeadingSlashSegments(name);
    folder := ExistingFolder(t', root, "/" + name).value;
    empty := ResolveTwoSegments(t', LocateRoot(t, root).value, "", name);
  }

  /** Creating a folder twice is creating it once: the second call changes nothing and reports the same. */
  lemma CreateFolderIdempotent(t: Table, root: string, path: string)
    requires t.Valid()
    ensures var e := CreateFolderEffect(t, root, path);
            CreateFolderEffect(e.table, root, path) == e
  {
    var e := CreateFolderEffect(t, root, path);
    if e.result == Pass {
      CreateFolderMakesPath(t, root, path, e.table);
      CreateFolderAgain(e.table, root, path);
    }
  }

  /** createFolder on a path that already names a folder creates nothing and succeeds. */
  lemma CreateFolderAgain(t: Table, root: string, path: string)
    requires t.Valid() && !IsBlank(path) && ExistingFolder(t, root, path).Some?
    ensures CreateFolderEffect(t, root, path) == Effect(t, Pass)
  {
    PrefixReuses(t, root, path, true);
  }

  // ---------------------------------------------------------------------
  // removeFolder
  // ---------------------------------------------------------------------

  /**
   * removeFolder returns at once on a blank path; otherwise it fails, leaving
   * the table as it was, when the root is missing, when the path holds only
   * slashes, or when its first segment has no folder (the path's message),
   * and succeeds in every other case.
   */
  lemma RemoveFolderOutcome(t: Table, root: string, path: string)
    requires t.Valid()
    ensures var e := RemoveFolderEffect(t, root, path);
            && (IsBlank(path) ==> e == Effect(t, Pass))
            && (!IsBlank(path) && !HasRoot(t, root) ==> e == Effect(t, Fail(RootMissing(root))))
            && (!IsBlank(path) && HasRoot(t, root) && OnlySlashes(path) ==> e == Effect(t, Fail(IndexOutOfBounds(0))))
            && (!IsBlank(path) && HasRoot(t, root) && !OnlySlashes(path) ==>
                  && (e.result == Pass <==> FirstSegmentExists(t, root, path))
                  && (e.result != Pass ==> e == Effect(t, Fail(NotFound(path)))))
  {
    if !IsBlank(path) && HasRoot(t, root) {
      var rootId := LocateRoot(t, root).value;
      PrefixFailsOnlyOnSlashes(t, rootId, path, false);
      if !OnlySlashes(path) {
        SegmentsEmptyIffOnlySlashes(path);
        WalkStopsOnlyAtFirst(t, Segments(path), rootId, false);
      }
    }
  }

  /** removeFolder on a path that names a folder deletes that one node and nothing else. */
  lemma RemoveFolderExisting(t: Table, root: string, path: string)
    requires t.Valid() && !IsBlank(path) && ExistingFolder(t, root, path).Some?
    ensures RemoveFolderEffect(t, root, path) == Effect(t.Remove(ExistingFolder(t, root, path).value), Pass)
  {
    PrefixReuses(t, root, path, false);
  }

  /**
   * A successful removeFolder of a non-blank path deletes exactly the folder
   * the path names once the walk is done, from a table that has only gained
   * folders.
   */
  lemma RemoveFolderDeletesResolved(t: Table, root: string, path: string, t': Table) returns (w: Table, folder: Id)
    requires t.Valid() && !IsBlank(path)
    requires RemoveFolderEffect(t, root, path) == Effect(t', Pass)
    ensures w.Valid() && Grows(t, w) && AddsFolders(t, w)
    ensures ExistingFolder(w, root, path) == Some(folder)
    ensures t' == w.Remove(folder)
  {
    var rootId := LocateRoot(t, root).value;
    var d := ResolvePrefix(t, rootId, path, false);
    w, folder := d.table, d.result.value.value;
    PrefixGrows(t, rootId, path, false);
    PrefixResolves(t, root, path, false);
  }

  /**
   * removeFolder of a path whose first segment exists under the root but whose
   * later segments do not name folders reports success all the same: the walk
   * creates the missing folders (creation is off for the first segment only)
   * and the last one created is the folder deleted, so the store hands out at
   * least one new id. With "a/b/c" and only "a" present, "a/b" is left behind.
   */
  lemma RemoveFolderMissingTail(t: Table, root: string, path: string)
    requires t.Valid() && !IsBlank(path)
    requires FirstSegmentExists(t, root, path) && ExistingFolder(t, root, path).None?
    ensures var e := RemoveFolderEffect(t, root, path);
            e.result == Pass && t.next < e.table.next
  {
    RemoveFolderOutcome(t, root, path);
    var rootId := LocateRoot(t, root).value;
    var segments := Segments(path);
    var found := t.Search(FolderQuery(segments[0], rootId));
    var w := Walk(t, segments[1..], found[0], true).table;
    WalkCreatesNothingIffResolved(t, segments[1..], found[0]);
    WalkGrows(t, segments[1..], found[0], true);
    GrowthNeedsNewIds(t, w);
  }

  // ---------------------------------------------------------------------
  // removeFile
  // ---------------------------------------------------------------------

  /**
   * removeFile fails exactly when the root is missing or the folder part
   * holds only slashes, and a failure leaves the table as it was.
   */
  lemma RemoveFileOutcome(t: Table, root: string, path: string)
    requires t.Valid()
    ensures var e := RemoveFileEffect(t, root, path);
            var folder := SplitLeaf(path).folder;
            && (e.result == Pass <==> HasRoot(t, root) && !OnlySlashes(folder))
            && (!HasRoot(t, root) ==> e.result == Fail(RootMissing(root)))
            && (HasRoot(t, root) && OnlySlashes(folder) ==> e.result == Fail(IndexOutOfBounds(0)))
            && (e.result.Fail? ==> e.table == t)
  {
    if HasRoot(t, root) {
      PrefixFailsOnlyOnSlashes(t, LocateRoot(t, root).value, SplitLeaf(path).folder, true);
    }
  }

  /** removeFile in a folder that exists deletes every node named like the leaf there, and nothing else. */
  lemma RemoveFileExisting(t: Table, root: string, path: string)
    requires t.Valid() && ExistingFolder(t, root, SplitLeaf(path).folder).Some?
    ensures var parts := SplitLeaf(path);
            RemoveFileEffect(t, root, path)
              == Effect(Reconcile(t, ExistingFolder(t, root, parts.folder).value, parts.leaf), Pass)
  {
    PrefixReuses(t, root, SplitLeaf(path).folder, true);
  }

  /**
   * A successful removeFile is deleteFiles of the leaf in the folder the
   * folder part names once the walk is done, from a table that has only
   * gained folders.
   */
  lemma RemoveFileDeletesResolved(t: Table, root: string, path: string, t': Table) returns (w: Table, folder: Id)
    requires t.Valid()
    requires RemoveFileEffect(t, root, path) == Effect(t', Pass)
    ensures w.Valid() && Grows(t, w) && AddsFolders(t, w)
    ensures ExistingFolder(w, root, SplitLeaf(path).folder) == Some(folder)
    ensures t' == Reconcile(w, folder, SplitLeaf(path).leaf)
  {
    var rootId := LocateRoot(t, root).value;
    var d := ResolvePrefix(t, rootId, SplitLeaf(path).folder, true);
    w, folder := d.table, d.result.value.value;
    PrefixGrows(t, rootId, SplitLeaf(path).folder, true);
    PrefixResolves(t, root, SplitLeaf(path).folder, true);
  }

  /**
   * Removing a stored file: removeFile of `path + "/" + name` succeeds, and
   * retrieval of the same path then fails, naming the folder part.
   */
  lemma StoreThenRemove(t: Table, root: string, file: LocalFile, path: string, t1: Table)
    requires t.Valid()
    requires StoreEffect(t, root, file, Some(path)) == Effect(t1, Pass)
    requires '/' !in file.name && !IsBlank(file.name)
    requires Forest(t)
    ensures t1.Valid()
    ensures var e := RemoveFileEffect(t1, root, path + "/" + file.name);
            && e.result == Pass
            && RetrieveStreamEffect(e.table, root, path + "/" + file.name) == Effect(e.table, Err(NotFound(path)))
  {
    var folder, id := StorePlacesFile(t, root, file, path, t1);
    var full := path + "/" + file.name;
    LeafPathParts(path, file.name, full);
    RemoveFileExisting(t1, root, full);
    RetrieveAfterRemove(t1, root, path, file.name, folder);
  }

  /** After the nodes named `name` are gone from the folder `path` names, retrieving `path + "/" + name` fails. */
  lemma RetrieveAfterRemove(t: Table, root: string, path: string, name: string, folder: Id)
    requires t.Valid() && Forest(t) && ExistingFolder(t, root, path) == Some(folder)
    requires '/' !in name && !IsBlank(name)
    ensures var t' := Reconcile(t, folder, name);
            RetrieveStreamEffect(t', root, path + "/" + name) == Effect(t', Err(NotFound(path)))
  {
    var t' := Reconcile(t, folder, name);
    var full := path + "/" + name;
    LeafPathParts(path, name, full);
    ReconcileKeepsFolder(t, root, path, folder, name);
    StreamIsLookup(t', root, full);
    LookupInExisting(t', root, SplitLeaf(full), folder);
    assert t'.MatchSet(FileQuery(name, folder)) == {};
  }

  // ---------------------------------------------------------------------
  // Every operation keeps the store a forest
  // ---------------------------------------------------------------------

  /** storeFile keeps the table a forest: the file hangs under the folder the walk ends at. */
  lemma StoreKeepsForest(t: Table, root: string, file: LocalFile, path: string)
    requires t.Valid() && Forest(t)
    ensures Forest(StoreEffect(t, root, file, Some(path)).table)
  {
    StoreOutcome(t, root, file, path);
    if StoreEffect(t, root, file, Some(path)).result == Pass {
      var w, parent := StoreUnfolds(t, root, file, path);
      ReconcileKeepsForest(w, parent, file.name);
      InsertKeepsForest(Reconcile(w, parent, file.name), FileNode(file.name, parent, file.content));
    }
  }

  /** removeFile keeps the table a forest. */
  lemma RemoveFileKeepsForest(t: Table, root: string, path: string)
    requires t.Valid() && Forest(t)
    ensures Forest(RemoveFileEffect(t, root, path).table)
  {
    RemoveFileOutcome(t, root, path);
    if LocateRoot(t, root).Ok? {
      var rootId := LocateRoot(t, root).value;
      var d := ResolvePrefix(t, rootId, SplitLeaf(path).folder, true);
      PrefixKeepsForest(t, rootId, SplitLeaf(path).folder, true);
      if d.result.Ok? {
        ReconcileKeepsForest(d.table, d.result.value.value, SplitLeaf(path).leaf);
      }
    }
  }

  /** createFolder keeps the table a forest. */
  lemma CreateFolderKeepsForest(t: Table, root: string, path: string)
    requires t.Valid() && Forest(t)
    ensures Forest(CreateFolderEffect(t, root, path).table)
  {
    if !IsBlank(path) && LocateRoot(t, root).Ok? {
      PrefixKeepsForest(t, LocateRoot(t, root).value, path, true);
    }
  }

  /** removeFolder keeps the table a forest. */
  lemma RemoveFolderKeepsForest(t: Table, root: string, path: string)
    requires t.Valid() && Forest(t)
    ensures Forest(RemoveFolderEffect(t, root, path).table)
  {
    if !IsBlank(path) && LocateRoot(t, root).Ok? {
      var rootId := LocateRoot(t, root).value;
      var d := ResolvePrefix(t, rootId, path, false);
      PrefixKeepsForest(t, rootId, path, false);
      if d.result.Ok? && d.result.value.Some? {
        RemoveKeepsForest(d.table, d.result.value.value);
      }
    }
  }

  /** The retrieval keeps the table a forest. */
  lemma RetrieveKeepsForest(t: Table, root: string, path: string)
    requires t.Valid() && Forest(t)
    ensures Forest(RetrieveStreamEffect(t, root, path).table)
  {
    if !IsBlank(path) && !EndsWithSlash(Trim(path)) && LocateRoot(t, root).Ok? {
      PrefixKeepsForest(t, LocateRoot(t, root).value, SplitLeaf(path).folder, false);
    }
  }
}
