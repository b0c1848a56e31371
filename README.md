# Universal Google Drive storage: path resolution and the storage operations

This project models the storage class of the Google Drive back end
(`UniversalGoogleDriveStorage`). The class puts slash-separated paths
(`a/b/c.txt`) on top of a store that knows only nodes. A node has a name,
a kind (file or folder), a parent id, a trashed flag and some content.
It never has a path.

Each call starts the same way:

1. Find the root folder by name.
2. Walk the segments of the path one by one (`discoverPath`). Each segment is
   looked up under the current parent, and a missing segment may become a new
   folder.
3. Do the leaf operation: delete the same-named nodes and upload
   (`storeFile`), delete them (`removeFile`), delete the folder reached
   (`removeFolder`), stop (`createFolder`) or download (`retrieveFileAsStream`,
   `retrieveFile`).

The model has three layers.

- **The store.** `DriveTable.Table` is the remote store as a value: a map from
  ids to nodes, plus the next id to hand out. A search returns every
  non-trashed match in ascending id order. `DriveTable.DriveStore` is the
  client the storage class talks to. It is a class whose two fields are
  changed by `Create` and `Delete`. `DriveTable.Forest` says that no chain of
  parent links runs in a cycle, which Drive guarantees; every operation is
  proved to keep it (`StorageProperties.StoreKeepsForest` and its siblings).
- **Reference functions.** `PathResolver` and `StorageOperations` give each
  operation as a function from the table before the call to the table after
  it and the result (`Effect`). Failures are `Fail`/`Err` values: the
  `UniversalIOException` messages, and the `ArrayIndexOutOfBoundsException`
  that `discoverPath` raises on an empty segment array. A failure keeps
  whatever the call already did to the store. `ExistingFolder` is the
  independent reference: the folder a path already names, with nothing
  created. It is what the operations are stated against.
- **The class.** `GoogleDriveStorage.UniversalGoogleDriveStorage` mirrors the
  Java methods statement by statement. The recursion of `discoverPath` and
  the deletion loop of `deleteFiles` are kept. Each public method is proved to
  leave the store, and return, exactly what its reference function says.

The properties are proved in `StorageProperties`:

- when each operation fails, and that a failure leaves the table unchanged;
- that every operation keeps the table a forest;
- that a stored file is what a later retrieval reads back;
- that storing twice keeps the second file;
- that `createFolder` is idempotent;
- what `removeFolder` and `removeFile` delete;
- that retrieval succeeds exactly when the folder part exists and holds a file named like the leaf.

`JavaStrings` models the `java.lang.String` operations the code uses:
`trim()`, `split("/")` with its dropped trailing empty strings,
`lastIndexOf("/")`, `substring` and `endsWith("/")`.

The code is modelled as written, including one behaviour the documentation
does not suggest. `discoverPath(subFolders, index, parent, false)` passes
only the first segment with creation off. Its recursive call at line 192 goes
through the three-argument overload, which always creates. So `removeFolder`
and the retrieval methods create the missing folders past the first segment
(`PathResolver.WalkStopsOnlyAtFirst`, `StorageProperties.RemoveFolderMissingTail`).
`removeFolder` reports "doesn't exist" only when the first segment is
missing. The retrieval methods report it then, and also when the folder they
reach holds no file named like the leaf.

The same goes for a leading slash. The Javadoc of `createFolder` says that
the path `/myFolder` names `myFolder` directly under the root. The code
splits it into `""` and `"myFolder"`, so it finds or creates a folder named
`""` under the root and puts `myFolder` under that one
(`StorageProperties.CreateFolderLeadingSlash`).

## Model

Every source cell is in `src/main/java/com/universal/storage/UniversalGoogleDriveStorage.java`.

| member | source | states |
|---|---|---|
| DriveTable.Table.Search | src/main/java/com/universal/storage/UniversalGoogleDriveStorage.java:163-165 | a files().list() query returns exactly the non-trashed nodes matching name, parent and kind, each once, in ascending id order, and is empty exactly when nothing matches |
| DriveTable.Table.Insert | src/main/java/com/universal/storage/UniversalGoogleDriveStorage.java:171-176 | files().create() stores the node under a fresh id, changes no other node and keeps the table valid |
| DriveTable.Table.Remove | src/main/java/com/universal/storage/UniversalGoogleDriveStorage.java:211 | files().delete() removes that one node and nothing else |
| DriveTable.Table.RemoveAll | src/main/java/com/universal/storage/UniversalGoogleDriveStorage.java:210-212 | deleting a list of ids one by one removes exactly those ids and leaves every other node as it was |
| DriveTable.InsertKeepsForest | src/main/java/com/universal/storage/UniversalGoogleDriveStorage.java:171-176 | creating a node under a parent already handed out keeps the table a forest |
| DriveTable.RemoveKeepsForest | src/main/java/com/universal/storage/UniversalGoogleDriveStorage.java:370 | deleting a node keeps the table a forest |
| DriveTable.FirstIsLeast | src/main/java/com/universal/storage/UniversalGoogleDriveStorage.java:121 | the first search result (`files.get(0)`) is a match and is below every other match |
| DriveTable.LeastIsFirst | src/main/java/com/universal/storage/UniversalGoogleDriveStorage.java:185 | a match below every other match is the first search result |
| DriveTable.SearchDependsOnMatches | src/main/java/com/universal/storage/UniversalGoogleDriveStorage.java:163-165 | two tables with the same matches for a query give the same search result |
| DriveTable.DriveStore.List | src/main/java/com/universal/storage/UniversalGoogleDriveStorage.java:114-115 | the client's list call returns the ids of the matching nodes, in order, as the table's search does |
| DriveTable.DriveStore.Create | src/main/java/com/universal/storage/UniversalGoogleDriveStorage.java:175 | the client's create call returns a fresh id and leaves the store as Table.Insert says |
| DriveTable.DriveStore.Delete | src/main/java/com/universal/storage/UniversalGoogleDriveStorage.java:370 | the client's delete call leaves the store as Table.Remove says |
| DriveTable.DriveStore.Download | src/main/java/com/universal/storage/UniversalGoogleDriveStorage.java:474 | executeMediaAndDownloadTo delivers the node's content |
| DriveTable.DriveStore.constructor | src/main/java/com/universal/storage/UniversalGoogleDriveStorage.java:49-52 | the client starts out holding the given valid table |
| JavaStrings.Trim | src/main/java/com/universal/storage/UniversalGoogleDriveStorage.java:122-123 | trim() keeps the infix from the first to the last character above the space, and is empty exactly when every character is at most the space |
| JavaStrings.IndexOf | src/main/java/com/universal/storage/UniversalGoogleDriveStorage.java:123 | the first position of a character, -1 exactly when it is absent |
| JavaStrings.LastIndexOf | src/main/java/com/universal/storage/UniversalGoogleDriveStorage.java:261 | the last position of a character, -1 exactly when it is absent, with no occurrence after it |
| JavaStrings.Split | src/main/java/com/universal/storage/UniversalGoogleDriveStorage.java:123 | split("/") gives the whole string when there is no slash; otherwise the fields between slashes with trailing empty fields dropped, and no element holds a slash |
| JavaStrings.JoinOfFields | src/main/java/com/universal/storage/UniversalGoogleDriveStorage.java:123 | gluing the fields of a string back with slashes gives the string |
| JavaStrings.FieldsOfJoin | src/main/java/com/universal/storage/UniversalGoogleDriveStorage.java:123 | the fields of a join of slash-free fields are those fields, so the two are inverse |
| JavaStrings.SplitEmptyIffOnlySlashes | src/main/java/com/universal/storage/UniversalGoogleDriveStorage.java:123-124 | split("/") yields an empty array exactly for a non-empty string of slashes, the case where discoverPath reads past the array |
| JavaStrings.FieldsOfSlashes | src/main/java/com/universal/storage/UniversalGoogleDriveStorage.java:123 | a string of slashes has only empty fields |
| JavaStrings.SlashesOfEmptyFields | src/main/java/com/universal/storage/UniversalGoogleDriveStorage.java:123 | a string whose fields are all empty is a string of slashes |
| JavaStrings.SplitKeepsLeadingEmpty | src/main/java/com/universal/storage/UniversalGoogleDriveStorage.java:295-296 | `"/" + name`, for any non-empty slash-free name, as in the documented "/myFolder", splits into a leading "" and the name, so its first lookup is of a folder named "" |
| JavaStrings.TrimKeepsUntrimmed | src/main/java/com/universal/storage/UniversalGoogleDriveStorage.java:122-123 | trim() returns a string that neither starts nor ends with a character up to the space unchanged |
| JavaStrings.SplitLeaf | src/main/java/com/universal/storage/UniversalGoogleDriveStorage.java:261-268 | lastIndexOf and substring give a slash-free leaf and a folder part that rebuild the path; with no slash the folder part is "" |
| JavaStrings.SplitLeafOfJoin | src/main/java/com/universal/storage/UniversalGoogleDriveStorage.java:261-268 | taking `folder + "/" + leaf` apart gives back the folder and the leaf |
| JavaStrings.IndexOfAfterHead | src/main/java/com/universal/storage/UniversalGoogleDriveStorage.java:123 | the first slash of `head + "/" + tail` is right after a slash-free head |
| JavaStrings.LastIndexOfBeforeTail | src/main/java/com/universal/storage/UniversalGoogleDriveStorage.java:261 | the last slash of `head + "/" + tail` is right before a slash-free tail |
| JavaStrings.TrimOfLeafPath | src/main/java/com/universal/storage/UniversalGoogleDriveStorage.java:430-436 | `folder + "/" + leaf` with a non-blank slash-free leaf passes both retrieval guards: it is not blank and its trimmed form does not end in '/' |
| PathResolver.LocateRoot | src/main/java/com/universal/storage/UniversalGoogleDriveStorage.java:114-121 | the root lookup fails with the root's message exactly when no non-trashed node carries the root's name, and otherwise returns the least such node |
| PathResolver.Walk | src/main/java/com/universal/storage/UniversalGoogleDriveStorage.java:159-193 | the recursion of discoverPath, where each segment takes the first folder match or a new folder, keeps the table valid, and with creation on always returns an id (the start itself when no segment is left) |
| PathResolver.WalkEndsAtFolder | src/main/java/com/universal/storage/UniversalGoogleDriveStorage.java:166-190 | a walk over at least one segment that returns an id ends at a live folder named like the last segment |
| PathResolver.Discover | src/main/java/com/universal/storage/UniversalGoogleDriveStorage.java:159-161 | discoverPath on an empty array fails with an index-out-of-bounds error and touches nothing; otherwise it is the walk |
| PathResolver.ResolveExisting | src/main/java/com/universal/storage/UniversalGoogleDriveStorage.java:181-185 | where the reference lookup (first folder match of every segment, nothing created) ends is a live folder named like the last segment |
| PathResolver.WalkGrows | src/main/java/com/universal/storage/UniversalGoogleDriveStorage.java:166-186 | a walk only adds non-trashed folders under fresh ids, at most one per segment, and changes no existing node |
| PathResolver.WalkStopsOnlyAtFirst | src/main/java/com/universal/storage/UniversalGoogleDriveStorage.java:166-179 | a walk returns null exactly when creation is off and the first segment has no folder, and then leaves the table unchanged |
| PathResolver.WalkResolves | src/main/java/com/universal/storage/UniversalGoogleDriveStorage.java:159-193 | the folder a walk returns is what the path resolves to in the table the walk leaves |
| PathResolver.WalkReusesExisting | src/main/java/com/universal/storage/UniversalGoogleDriveStorage.java:180-186 | walking a path that already resolves creates nothing and returns the resolved folder |
| PathResolver.WalkCreatesNothingIffResolved | src/main/java/com/universal/storage/UniversalGoogleDriveStorage.java:166-186 | a creating walk leaves the table unchanged exactly when the path already resolves |
| PathResolver.FirstMatchSurvivesGrowth | src/main/java/com/universal/storage/UniversalGoogleDriveStorage.java:185 | adding nodes under fresh ids keeps the first match of a query that had one |
| PathResolver.LocateRootSurvivesGrowth | src/main/java/com/universal/storage/UniversalGoogleDriveStorage.java:114-121 | once folders have been added, the root lookup still finds the same root |
| PathResolver.NewNodeIsFirstMatch | src/main/java/com/universal/storage/UniversalGoogleDriveStorage.java:175-176 | a folder created where nothing matched is the first match from then on |
| PathResolver.ResolveTwoSegments | src/main/java/com/universal/storage/UniversalGoogleDriveStorage.java:181-192 | a lookup of two segments passes through a folder named like the first, directly under the start, whose child is the result |
| PathResolver.ResolveSameFolders | src/main/java/com/universal/storage/UniversalGoogleDriveStorage.java:163-185 | tables with the same folder matches for every segment resolve a path alike |
| PathResolver.GrowthNeedsNewIds | src/main/java/com/universal/storage/UniversalGoogleDriveStorage.java:175 | a table that has only grown, without handing out an id, is unchanged |
| PathResolver.Reconcile | src/main/java/com/universal/storage/UniversalGoogleDriveStorage.java:201-214 | after deleteFiles no non-trashed node of that name is left under the parent, every other node is untouched, and the id counter is kept |
| PathResolver.RemoveListedIsReconcile | src/main/java/com/universal/storage/UniversalGoogleDriveStorage.java:202-212 | deleting the listed siblings one by one is exactly deleteFiles |
| PathResolver.CreatedFolderIsChildless | src/main/java/com/universal/storage/UniversalGoogleDriveStorage.java:171-176 | in a forest, a folder just created has nothing under it and the table stays a forest |
| PathResolver.WalkFromChildless | src/main/java/com/universal/storage/UniversalGoogleDriveStorage.java:166-192 | a creating walk from a node with nothing under it ends at a node with nothing under it |
| PathResolver.WalkMissEndsChildless | src/main/java/com/universal/storage/UniversalGoogleDriveStorage.java:166-192 | a creating walk along segments that do not resolve ends at a folder with nothing under it |
| PathResolver.ReconcileKeepsForest | src/main/java/com/universal/storage/UniversalGoogleDriveStorage.java:201-214 | deleteFiles keeps the table a forest |
| PathResolver.WalkKeepsForest | src/main/java/com/universal/storage/UniversalGoogleDriveStorage.java:166-192 | a walk from a node of a forest keeps it a forest: each new folder hangs under a node already there |
| PathResolver.ResolveClimbs | src/main/java/com/universal/storage/UniversalGoogleDriveStorage.java:181-192 | in a ranked table each segment of a lookup climbs the rank, so the lookup ends strictly above its start |
| PathResolver.ReconcileKeepsOtherParents | src/main/java/com/universal/storage/UniversalGoogleDriveStorage.java:201-214 | deleteFiles in one folder leaves every folder search under another parent alone |
| PathResolver.ResolveUnderReconcile | src/main/java/com/universal/storage/UniversalGoogleDriveStorage.java:201-214 | in a ranked table, deleteFiles in the folder a lookup ends at, whatever the name, keeps the lookup ending there |
| StorageOperations.Segments | src/main/java/com/universal/storage/UniversalGoogleDriveStorage.java:123 | `path.trim().split("/")`, the segment array every orchestrator builds (also :280, :325, :364, :457); no segment holds a slash |
| StorageOperations.StoreEffect | src/main/java/com/universal/storage/UniversalGoogleDriveStorage.java:104-143 | storeFile: refuse a directory, find the root, resolve the target creating what is missing, delete the same-named nodes there, upload; the table stays valid (what this promises is StoreOutcome, StorePlacesFile and StoreKeepsForest) |
| StorageOperations.RemoveFileEffect | src/main/java/com/universal/storage/UniversalGoogleDriveStorage.java:258-288 | removeFile: split off the leaf, find the root, resolve the folder part creating what is missing, delete the leaf's nodes there; the table stays valid (RemoveFileOutcome, RemoveFileDeletesResolved) |
| StorageOperations.CreateFolderEffect | src/main/java/com/universal/storage/UniversalGoogleDriveStorage.java:308-331 | createFolder: refuse a blank path, find the root, walk the whole path creating what is missing; the table stays valid (CreateFolderOutcome, CreateFolderMakesPath) |
| StorageOperations.RemoveFolderEffect | src/main/java/com/universal/storage/UniversalGoogleDriveStorage.java:347-376 | removeFolder: no-op on a blank path, find the root, walk with creation off for the first segment, delete the folder reached or report the path missing; the table stays valid (RemoveFolderOutcome, RemoveFolderDeletesResolved) |
| StorageOperations.LookupLeaf | src/main/java/com/universal/storage/UniversalGoogleDriveStorage.java:438-476 | the lookup of retrieval: find the root, walk the folder part with creation off for the first segment, then read the leaf; a successful lookup always carries content (RetrieveFromExisting, RetrieveSucceedsIff) |
| StorageOperations.ResolvePrefix | src/main/java/com/universal/storage/UniversalGoogleDriveStorage.java:121-125 | a blank path resolves to the root with nothing touched; a creating resolution that succeeds always returns an id |
| StorageOperations.ExistingFolder | src/main/java/com/universal/storage/UniversalGoogleDriveStorage.java:121-125 | the folder a path already names is a live node in the table |
| StorageOperations.ReadFromFolder | src/main/java/com/universal/storage/UniversalGoogleDriveStorage.java:464-476 | the read fails exactly when no non-folder of the leaf's name is in the folder, and otherwise returns content |
| StorageOperations.RetrieveStreamEffect | src/main/java/com/universal/storage/UniversalGoogleDriveStorage.java:427-487 | retrieveFileAsStream returns null exactly for a blank path |
| StorageOperations.RetrieveFileEffect | src/main/java/com/universal/storage/UniversalGoogleDriveStorage.java:386-417 | retrieveFile returns null exactly for a blank path |
| StorageProperties.SegmentsEmptyIffOnlySlashes | src/main/java/com/universal/storage/UniversalGoogleDriveStorage.java:122-124 | a non-blank path splits into no segment exactly when, trimmed, it is only slashes |
| StorageProperties.PrefixFailsOnlyOnSlashes | src/main/java/com/universal/storage/UniversalGoogleDriveStorage.java:122-125 | resolving a folder part fails exactly for a path of slashes, with the index error and the table unchanged |
| StorageProperties.PrefixGrows | src/main/java/com/universal/storage/UniversalGoogleDriveStorage.java:122-125 | resolving a folder part only adds folders |
| StorageProperties.PrefixResolves | src/main/java/com/universal/storage/UniversalGoogleDriveStorage.java:121-125 | afterwards the path names the folder the resolution returned |
| StorageProperties.PrefixReuses | src/main/java/com/universal/storage/UniversalGoogleDriveStorage.java:121-125 | a folder part that exists already is reused with nothing created |
| StorageProperties.ReconcileKeepsResolution | src/main/java/com/universal/storage/UniversalGoogleDriveStorage.java:127 | deleteFiles keeps what a path resolves to when neither the root nor a segment shares the deleted name |
| StorageProperties.UploadKeepsResolution | src/main/java/com/universal/storage/UniversalGoogleDriveStorage.java:129-139 | uploading a file not named like the root keeps what every path resolves to |
| StorageProperties.ReconcileKeepsFolder | src/main/java/com/universal/storage/UniversalGoogleDriveStorage.java:127 | in a forest, deleteFiles in the folder a path names keeps the path naming that folder, whatever the deleted name |
| StorageProperties.UploadFileKeepsFolder | src/main/java/com/universal/storage/UniversalGoogleDriveStorage.java:129-139 | uploading a node that is not a folder keeps what every path resolves to, the root's name included |
| StorageProperties.PrefixKeepsForest | src/main/java/com/universal/storage/UniversalGoogleDriveStorage.java:121-125 | resolving a folder part from the root keeps a forest a forest |
| StorageProperties.StoreNullPathIsRoot | src/main/java/com/universal/storage/UniversalGoogleDriveStorage.java:109-111 | a null target path stores exactly as the empty path does |
| StorageProperties.StoreOutcome | src/main/java/com/universal/storage/UniversalGoogleDriveStorage.java:104-143 | storeFile succeeds exactly when the file is no directory, the root exists and the target is not slashes only; each failure has its message and leaves the table unchanged |
| StorageProperties.StoreIntoExistingFolder | src/main/java/com/universal/storage/UniversalGoogleDriveStorage.java:121-139 | storing into an existing folder creates no folder: same-named nodes there are deleted and the file is uploaded |
| StorageProperties.UploadReplaces | src/main/java/com/universal/storage/UniversalGoogleDriveStorage.java:127-139 | after delete-then-upload the new file is the only node of its name in the folder, and other nodes are unchanged |
| StorageProperties.UploadKeepsFolder | src/main/java/com/universal/storage/UniversalGoogleDriveStorage.java:127-139 | in a forest, delete-then-upload in the folder a path names keeps the path naming it and keeps the forest |
| StorageProperties.StorePlacesFile | src/main/java/com/universal/storage/UniversalGoogleDriveStorage.java:104-143 | after a successful store on a forest the table is still a forest and the path names a folder holding the new file as its only node of that name; earlier nodes of other names are unchanged and every other new node is a folder |
| StorageProperties.StoreThenRetrieve | src/main/java/com/universal/storage/UniversalGoogleDriveStorage.java:104-143 | retrieving `path + "/" + name` after storing reads back exactly the stored content and creates nothing |
| StorageProperties.StoreTwiceOverwrites | src/main/java/com/universal/storage/UniversalGoogleDriveStorage.java:127-139 | a second store under the same name and path succeeds, and retrieval then reads the second file |
| StorageProperties.RetrieveOnlyFile | src/main/java/com/universal/storage/UniversalGoogleDriveStorage.java:427-487 | retrieval reads the one node of the leaf's name in the folder the path names |
| StorageProperties.RetrieveFromExisting | src/main/java/com/universal/storage/UniversalGoogleDriveStorage.java:455-476 | with the folder part present, retrieval creates nothing, succeeds exactly when a non-folder of the leaf's name is there, reads the least such node, and otherwise fails naming the folder part |
| StorageProperties.RetrieveMissingFolderFails | src/main/java/com/universal/storage/UniversalGoogleDriveStorage.java:455-468 | in a forest, retrieval fails when the folder part names no folder; with the root present and a folder part that is not slashes only, the error names the folder part, also when the walk created the missing folders past the first segment |
| StorageProperties.RetrieveSucceedsIff | src/main/java/com/universal/storage/UniversalGoogleDriveStorage.java:427-476 | in a forest, retrieval of a path that passes the guards succeeds exactly when the folder part names a folder holding a non-folder named like the leaf |
| StorageProperties.RetrieveFileStagesStream | src/main/java/com/universal/storage/UniversalGoogleDriveStorage.java:397-416 | retrieveFile fails exactly when the stream fails, with the same error, and otherwise stages the streamed bytes under the leaf's name |
| StorageProperties.RetrieveOutcome | src/main/java/com/universal/storage/UniversalGoogleDriveStorage.java:427-462 | retrieval returns null for a blank path, refuses a path ending in '/', and fails with the table unchanged on a missing root, a folder part of slashes, or a missing first segment |
| StorageProperties.RetrieveOnlyAddsFolders | src/main/java/com/universal/storage/UniversalGoogleDriveStorage.java:455-459 | retrieval deletes and changes nothing; at most it adds folders its walk created |
| StorageProperties.CreateFolderOutcome | src/main/java/com/universal/storage/UniversalGoogleDriveStorage.java:308-331 | createFolder fails exactly on a blank path, a missing root or a path of slashes, with that error and the table unchanged |
| StorageProperties.CreateFolderMakesPath | src/main/java/com/universal/storage/UniversalGoogleDriveStorage.java:323-327 | after success the path names a folder called like its last segment; only folders are added; the table is unchanged exactly when the path existed already |
| StorageProperties.LeadingSlashSegments | src/main/java/com/universal/storage/UniversalGoogleDriveStorage.java:311-325 | `"/" + name`, for a slash-free name not ending in a blank, passes the blank test and has the segments "" and the name |
| StorageProperties.CreateFolderLeadingSlash | src/main/java/com/universal/storage/UniversalGoogleDriveStorage.java:290-331 | createFolder("/" + name), as in "/myFolder", ends at a folder called the name whose parent is a folder named "" directly under the root |
| StorageProperties.CreateFolderIdempotent | src/main/java/com/universal/storage/UniversalGoogleDriveStorage.java:290-292 | calling createFolder a second time changes nothing and reports the same result |
| StorageProperties.CreateFolderAgain | src/main/java/com/universal/storage/UniversalGoogleDriveStorage.java:290-292 | createFolder on an existing path succeeds and creates nothing |
| StorageProperties.RemoveFolderOutcome | src/main/java/com/universal/storage/UniversalGoogleDriveStorage.java:347-376 | removeFolder does nothing on a blank path; it fails with the table unchanged on a missing root or a path of slashes; otherwise it succeeds exactly when the first segment exists, else it fails with the path's message |
| StorageProperties.RemoveFolderExisting | src/main/java/com/universal/storage/UniversalGoogleDriveStorage.java:362-371 | removeFolder of an existing path deletes that one folder and nothing else |
| StorageProperties.RemoveFolderDeletesResolved | src/main/java/com/universal/storage/UniversalGoogleDriveStorage.java:362-371 | a successful removeFolder deletes exactly the folder the path names once the walk has added its folders |
| StorageProperties.RemoveFolderMissingTail | src/main/java/com/universal/storage/UniversalGoogleDriveStorage.java:192 | when the first segment exists but the path does not, removeFolder still succeeds after handing out new ids for folders it creates |
| StorageProperties.RemoveFileOutcome | src/main/java/com/universal/storage/UniversalGoogleDriveStorage.java:258-288 | removeFile fails exactly on a missing root or a folder part of slashes, with that error and the table unchanged |
| StorageProperties.RemoveFileExisting | src/main/java/com/universal/storage/UniversalGoogleDriveStorage.java:278-284 | removeFile in an existing folder deletes every node named like the leaf there, and nothing else |
| StorageProperties.RemoveFileDeletesResolved | src/main/java/com/universal/storage/UniversalGoogleDriveStorage.java:258-288 | a successful removeFile is deleteFiles of the leaf in the folder the folder part names once the walk has added its folders |
| StorageProperties.StoreThenRemove | src/main/java/com/universal/storage/UniversalGoogleDriveStorage.java:258-288 | removing a stored file succeeds, and retrieving it afterwards fails naming the folder part |
| StorageProperties.RetrieveAfterRemove | src/main/java/com/universal/storage/UniversalGoogleDriveStorage.java:464-468 | once the leaf's nodes are gone from the folder, retrieval fails naming the folder part |
| StorageProperties.StoreKeepsForest | src/main/java/com/universal/storage/UniversalGoogleDriveStorage.java:104-143 | storeFile keeps the table a forest |
| StorageProperties.RemoveFileKeepsForest | src/main/java/com/universal/storage/UniversalGoogleDriveStorage.java:258-288 | removeFile keeps the table a forest |
| StorageProperties.CreateFolderKeepsForest | src/main/java/com/universal/storage/UniversalGoogleDriveStorage.java:308-331 | createFolder keeps the table a forest |
| StorageProperties.RemoveFolderKeepsForest | src/main/java/com/universal/storage/UniversalGoogleDriveStorage.java:347-376 | removeFolder keeps the table a forest |
| StorageProperties.RetrieveKeepsForest | src/main/java/com/universal/storage/UniversalGoogleDriveStorage.java:427-487 | the retrieval keeps the table a forest |
| GoogleDriveStorage.UniversalGoogleDriveStorage.constructor | src/main/java/com/universal/storage/UniversalGoogleDriveStorage.java:38-41 | the storage holds its client and its root name |
| GoogleDriveStorage.UniversalGoogleDriveStorage.FindRoot | src/main/java/com/universal/storage/UniversalGoogleDriveStorage.java:114-121 | the root query and `files.get(0)` behave as LocateRoot |
| GoogleDriveStorage.UniversalGoogleDriveStorage.DiscoverPathCreating | src/main/java/com/universal/storage/UniversalGoogleDriveStorage.java:145-148 | the three-argument discoverPath is the creating walk from the index on, or the index error past the array |
| GoogleDriveStorage.UniversalGoogleDriveStorage.DiscoverPath | src/main/java/com/universal/storage/UniversalGoogleDriveStorage.java:159-193 | the recursive discoverPath leaves the store and returns what Walk says for the segments from the index on, or the index error with nothing touched |
| GoogleDriveStorage.UniversalGoogleDriveStorage.ResolveFolder | src/main/java/com/universal/storage/UniversalGoogleDriveStorage.java:121-125 | the blank test, trim, split and discoverPath behave as ResolvePrefix |
| GoogleDriveStorage.UniversalGoogleDriveStorage.DeleteFiles | src/main/java/com/universal/storage/UniversalGoogleDriveStorage.java:201-214 | the delete loop leaves the store as Reconcile says |
| GoogleDriveStorage.UniversalGoogleDriveStorage.StoreFile | src/main/java/com/universal/storage/UniversalGoogleDriveStorage.java:104-143 | storeFile leaves the store and returns as StoreEffect says |
| GoogleDriveStorage.UniversalGoogleDriveStorage.RemoveFile | src/main/java/com/universal/storage/UniversalGoogleDriveStorage.java:258-288 | removeFile leaves the store and returns as RemoveFileEffect says |
| GoogleDriveStorage.UniversalGoogleDriveStorage.CreateFolder | src/main/java/com/universal/storage/UniversalGoogleDriveStorage.java:308-331 | createFolder leaves the store and returns as CreateFolderEffect says |
| GoogleDriveStorage.UniversalGoogleDriveStorage.RemoveFolder | src/main/java/com/universal/storage/UniversalGoogleDriveStorage.java:347-376 | removeFolder leaves the store and returns as RemoveFolderEffect says |
| GoogleDriveStorage.UniversalGoogleDriveStorage.RetrieveFileAsStream | src/main/java/com/universal/storage/UniversalGoogleDriveStorage.java:427-487 | retrieveFileAsStream leaves the store and returns as RetrieveStreamEffect says |
| GoogleDriveStorage.UniversalGoogleDriveStorage.RetrieveFile | src/main/java/com/universal/storage/UniversalGoogleDriveStorage.java:386-417 | retrieveFile leaves the store and returns as RetrieveFileEffect says |

## Left out

- Authentication, `initializeDrive` and the Drive service construction: these are the client's transport and credentials, and are not part of this model.
- The text of the query strings: each query is modelled by what it selects (name, parent, folder kind, not trashed). Quoting and escaping of names inside the query are not modelled.
- The upload mechanics (`FileContent`, `MediaHttpUploader`, direct upload): an upload is one create of a file node holding the local file's bytes.
- Network and I/O failures of the client: every client call is modelled as succeeding. The only failures are the ones the class itself raises, plus the index error of `discoverPath`.
- The temporary files that retrieval writes and `clean()`: a download is the node's content, and retrieveFile's staged copy is a name and bytes.
- StorageOperations.RetrieveFileEffect: the staged copy holds the full content. In the code, retrieveFileAsStream downloads to `tmp/<node name>` and opens a stream on that file, and retrieveFile then copies the stream into `new File(tmp, fileName)`, the same file when the names agree. Copying a file onto itself can leave it empty; local-file semantics are outside the model.
- Result paging: every `files().list()` call reads only its first page (no page size is set and `nextPageToken` is never followed), so the store's default page size caps what a search sees. Search is modelled as the complete filter, so PathResolver.Reconcile and the deleteFiles loop delete every match, where the code deletes only the first page's.
- `PathValidator.validatePath` and the `storeFile(String)` / `storeFile(String, String)` overloads: they work on the local file system and on a validator whose code is not part of this model.
- Listener notification and the settings object: the root name is a field of the storage; the temporary directory is left out.
- Nodes with several parents: a node has at most one parent, which is what this class creates. The root search ignores parents.
- The order of search results is unspecified by the store; it is modelled as ascending id order, so "the first result" is the least matching id. StorageProperties.StoreThenRetrieve, StoreTwiceOverwrites and CreateFolderIdempotent rest on this (through PathResolver.FirstMatchSurvivesGrowth and NewNodeIsFirstMatch): they need the store to list same-named folders in the same order on every call. With two folders "a" under the root and an order that changes between calls, the code can walk into a different "a" the second time, and neither the round trip nor idempotence is promised then.
- Deleting a folder does not delete its descendants in this model. They stay in the table with their parent id pointing at the deleted folder, because the store's recursive delete (files().delete removes a folder's descendants for good) is outside the class.
- Concurrency between calls: every operation is modelled as one atomic step on the table.
- StorageProperties.StorePlacesFile: stated for a forest, which Drive guarantees and every operation keeps. In a table with a cycle of parent links, the target folder could hold the root or a folder on the path, and deleteFiles would then delete it.
- StorageProperties.StoreThenRetrieve: stated for a forest, as StorePlacesFile is. Also requires a non-blank file name without '/'. A local file name never has a '/'; with a blank name, the retrieval path ends in '/' once trimmed and is refused.
- StorageProperties.StoreTwiceOverwrites: same restrictions as StoreThenRetrieve.
- StorageProperties.StoreThenRemove: same restrictions as StoreThenRetrieve.
- StorageProperties.RetrieveAfterRemove: same restrictions as StoreThenRetrieve.
- StorageProperties.RemoveFolderMissingTail: states that the call succeeds and hands out new ids. It does not state which created folders are left behind.
