/**
 * The pieces every public operation is built from: locating the root by
 * name, walking a path's segments from a parent (discoverPath, creating
 * missing folders on the way) and deleting same-named siblings
 * (deleteFiles). Each is a function from the table before to the table
 * after and a result.
 */
module PathResolver {
  import opened Wrappers
  import opened DriveTable

  /**
   * The messages the storage throws, each wrapped in a UniversalIOException.
   * An operation that fails keeps whatever it already did to the store.
   */
  datatype StorageError =
    | IsFolder(name: string)           // storeFile was handed a local directory
    | RootMissing(root: string)        // no node carries the root's name
    | IndexOutOfBounds(index: int)     // discoverPath read past an empty segment array
    | EmptyPath                        // createFolder on a blank path
    | NotFound(path: string)           // a folder or a file that resolution did not find
    | LooksLikeFolder                  // retrieval of a path ending in '/'

  /** The table after a step, and what the step returned. */
  datatype Effect<+R> = Effect(table: Table, result: R)

  /**
   * The root lookup that opens every operation: the first non-trashed node
   * of any kind and any parent that carries the root's name.
   */
  function LocateRoot(t: Table, root: string): (r: Result<Id, StorageError>)
    requires t.Valid()
    ensures r.Err? <==> t.MatchSet(RootQuery(root)) == {}
    ensures r.Err? ==> r.error == RootMissing(root)
    ensures r.Ok? ==> r.value in t.nodes && t.nodes[r.value].name == root && !t.nodes[r.value].trashed
    ensures r.Ok? ==> forall k :: k in t.MatchSet(RootQuery(root)) ==> r.value <= k
  {
    var roots := t.Search(RootQuery(root));
    if roots == [] then
      Err(RootMissing(root))
    else
      FirstIsLeast(t, RootQuery(root));
      Ok(roots[0])
  }

  /**
   * discoverPath(segments, 0, parent, create), recursion and all: for each
   * segment, the first folder of that name under the current parent, or a
   * new folder when there is none. When there is none and creation is off the
   * walk stops with None (Java's null). The recursive call goes through the
   * three-argument overload, which turns creation on, so `create` only
   * governs the first segment.
   */
  function Walk(t: Table, segments: seq<string>, parent: Id, create: bool): (e: Effect<Option<Id>>)
    requires t.Valid()
    ensures e.table.Valid()
    ensures create ==> e.result.Some?
    decreases |segments|
  {
    if segments == [] then Effect(t, Some(parent))
    else
      var found := t.Search(FolderQuery(segments[0], parent));
      if found != [] then
        Walk(t, segments[1..], found[0], true)
      else if create then
        Walk(t.Insert(FolderNode(segments[0], parent)), segments[1..], t.next, true)
      else
        Effect(t, None)
  }

  /**
   * discoverPath as the orchestrators call it, on the array that split
   * produced. An empty array makes its first read `subFolders[0]` throw.
   */
  function Discover(t: Table, segments: seq<string>, parent: Id, create: bool): (e: Effect<Result<Option<Id>, StorageError>>)
    requires t.Valid()
    ensures e.table.Valid()
    ensures e.result.Err? <==> segments == []
    ensures e.result.Err? ==> e == Effect(t, Err(IndexOutOfBounds(0)))
    ensures e.result.Ok? ==> e == Effect(Walk(t, segments, parent, create).table, Ok(Walk(t, segments, parent, create).result))
    ensures create && e.result.Ok? ==> e.result.value.Some?
  {
    if segments == [] then Effect(t, Err(IndexOutOfBounds(0)))
    else
      var w := Walk(t, segments, parent, create);
      Effect(w.table, Ok(w.result))
  }

  /**
   * The folder a path already names: follow the first folder match of each
   * segment, creating nothing; None when some segment has no match. This is
   * the reference the walk is measured against.
   */
  function ResolveExisting(t: Table, parent: Id, segments: seq<string>): (r: Option<Id>)
    requires t.Valid()
    ensures r.Some? && segments != [] ==>
              && r.value in t.nodes
              && t.nodes[r.value].isFolder
              && !t.nodes[r.value].trashed
              && t.nodes[r.value].name == segments[|segments| - 1]
    decreases |segments|
  {
    if segments == [] then Some(parent)
    else
      var found := t.Search(FolderQuery(segments[0], parent));
      if found == [] then None else ResolveExisting(t, found[0], segments[1..])
  }

  /**
   * `t'` is `t` with nodes added under fresh ids and nothing else changed:
   * every node of `t` is still there and unchanged, and every new one has an
   * id the counter of `t` had not yet reached.
   */
  ghost predicate Grows(t: Table, t': Table) {
    && t.next <= t'.next
    && (forall k :: k in t.nodes ==> k in t'.nodes && t'.nodes[k] == t.nodes[k])
    && (forall k :: k in t'.nodes && k !in t.nodes ==> t.next <= k)
  }

  /** Every node of `t'` that `t` lacks is a non-trashed folder, and every id handed out is in use. */
  ghost predicate AddsFolders(t: Table, t': Table) {
    && (forall k :: k in t'.nodes && k !in t.nodes ==> t'.nodes[k].isFolder && !t'.nodes[k].trashed)
    && (forall k :: t.next <= k < t'.next ==> k in t'.nodes)
  }

  /** A table that has grown without handing out an id has not changed. */
  lemma GrowthNeedsNewIds(t: Table, t': Table)
    requires t'.Valid() && Grows(t, t')
    ensures t'.next == t.next ==> t' == t
  {
    if t'.next == t.next {
      assert t'.nodes == t.nodes;
    }
  }

  /** Adding nodes under fresh ids keeps the first match of a query that already had one. */
  lemma FirstMatchSurvivesGrowth(t: Table, t': Table, q: Query)
    requires t.Valid() && t'.Valid() && Grows(t, t')
    requires t.Search(q) != []
    ensures t'.Search(q) != [] && t'.Search(q)[0] == t.Search(q)[0]
  {
    var m := t.Search(q)[0];
    FirstIsLeast(t, q);
    forall k | k in t'.MatchSet(q)
      ensures m <= k
    {
      assert k < m ==> k in t.MatchSet(q);
    }
    LeastIsFirst(t', q, m);
  }

  /** The root lookup gives the same id after the table has only grown. */
  lemma LocateRootSurvivesGrowth(t: Table, t': Table, root: string)
    requires t.Valid() && t'.Valid() && Grows(t, t')
    requires LocateRoot(t, root).Ok?
    ensures LocateRoot(t', root) == LocateRoot(t, root)
  {
    FirstMatchSurvivesGrowth(t, t', RootQuery(root));
  }

  /**
   * A walk only adds non-trashed folders under fresh ids, at most one per
   * segment, and leaves every node that was there unchanged.
   */
  lemma {:induction false} WalkGrows(t: Table, segments: seq<string>, parent: Id, create: bool)
    requires t.Valid()
    ensures var t' := Walk(t, segments, parent, create).table;
            && Grows(t, t')
            && AddsFolders(t, t')
            && t'.next <= t.next + |segments|
    decreases |segments|
  {
    if segments != [] {
      var found := t.Search(FolderQuery(segments[0], parent));
      if found != [] {
        WalkGrows(t, segments[1..], found[0], true);
      } else if create {
        var t1 := t.Insert(FolderNode(segments[0], parent));
        InsertFolderGrows(t, segments[0], parent);
        WalkGrows(t1, segments[1..], t.next, true);
        AddsFoldersTransitive(t, t1, Walk(t1, segments[1..], t.next, true).table);
      }
    }
  }

  /** Creating one folder grows the table by that folder. */
  lemma InsertFolderGrows(t: Table, name: string, parent: Id)
    requires t.Valid()
    ensures var t1 := t.Insert(FolderNode(name, parent));
            Grows(t, t1) && AddsFolders(t, t1) && t1.next == t.next + 1
  {
  }

  /** Two steps that each only add folders add only folders together. */
  lemma AddsFoldersTransitive(t0: Table, t1: Table, t2: Table)
    requires Grows(t0, t1) && AddsFolders(t0, t1)
    requires Grows(t1, t2) && AddsFolders(t1, t2)
    ensures Grows(t0, t2) && AddsFolders(t0, t2)
  {
  }

  /**
   * A walk returns None exactly when creation is off and the first segment
   * has no folder under the start; it then leaves the table as it was.
   */
  lemma WalkStopsOnlyAtFirst(t: Table, segments: seq<string>, parent: Id, create: bool)
    requires t.Valid()
    ensures var e := Walk(t, segments, parent, create);
            && (e.result.None? <==> !create && segments != [] && t.Search(FolderQuery(segments[0], parent)) == [])
            && (e.result.None? ==> e.table == t)
  {
  }

  /** A node created at the top of the table is the first match of a query nothing else matched. */
  lemma NewNodeIsFirstMatch(t: Table, n: Node, t': Table, q: Query)
    requires t.Valid() && t'.Valid()
    requires t.Search(q) == [] && q.Matches(n)
    requires Grows(t.Insert(n), t')
    ensures t'.Search(q) != [] && t'.Search(q)[0] == t.next
  {
    var t1 := t.Insert(n);
    assert t.next in t'.MatchSet(q);
    forall k | k in t'.MatchSet(q)
      ensures t.next <= k
    {
      assert k < t.next ==> k in t.MatchSet(q);
    }
    LeastIsFirst(t', q, t.next);
  }

  /**
   * What a walk returns is what the path resolves to in the table it leaves
   * behind: the folders it reused are still the first matches there, and each
   * folder it created is the first (and only) match under its parent.
   */
  lemma {:induction false} WalkResolves(t: Table, segments: seq<string>, parent: Id, create: bool)
    requires t.Valid()
    ensures var e := Walk(t, segments, parent, create);
            e.result.Some? ==> ResolveExisting(e.table, parent, segments) == e.result
    decreases |segments|
  {
    if segments != [] {
      var q := FolderQuery(segments[0], parent);
      var found := t.Search(q);
      var e := Walk(t, segments, parent, create);
      if found != [] {
        WalkResolves(t, segments[1..], found[0], true);
        WalkGrows(t, segments[1..], found[0], true);
        FirstMatchSurvivesGrowth(t, e.table, q);
      } else if create {
        var n := FolderNode(segments[0], parent);
        var t1 := t.Insert(n);
        WalkResolves(t1, segments[1..], t.next, true);
        WalkGrows(t1, segments[1..], t.next, true);
        NewNodeIsFirstMatch(t, n, e.table, q);
      }
    }
  }

  /** A walk over at least one segment that returns an id ends at a live folder named like the last segment. */
  lemma WalkEndsAtFolder(t: Table, segments: seq<string>, parent: Id, create: bool)
    requires t.Valid()
    ensures var e := Walk(t, segments, parent, create);
            e.result.Some? && segments != [] ==>
              && e.result.value in e.table.nodes
              && e.table.nodes[e.result.value].isFolder
              && !e.table.nodes[e.result.value].trashed
              && e.table.nodes[e.result.value].name == segments[|segments| - 1]
  {
    WalkResolves(t, segments, parent, create);
  }

  /** A walk along a path that already resolves reuses every folder and creates nothing. */
  lemma {:induction false} WalkReusesExisting(t: Table, segments: seq<string>, parent: Id, create: bool)
    requires t.Valid()
    requires ResolveExisting(t, parent, segments).Some?
    ensures Walk(t, segments, parent, create) == Effect(t, ResolveExisting(t, parent, segments))
    decreases |segments|
  {
    if segments != [] {
      var found := t.Search(FolderQuery(segments[0], parent));
      WalkReusesExisting(t, segments[1..], found[0], true);
    }
  }

  /**
   * A walk that may create leaves the table untouched exactly when the path
   * already resolves.
   */
  lemma WalkCreatesNothingIffResolved(t: Table, segments: seq<string>, parent: Id)
    requires t.Valid()
    ensures Walk(t, segments, parent, true).table == t <==> ResolveExisting(t, parent, segments).Some?
  {
    var e := Walk(t, segments, parent, true);
    if e.table == t {
      WalkResolves(t, segments, parent, true);
    }
    if ResolveExisting(t, parent, segments).Some? {
      WalkReusesExisting(t, segments, parent, true);
    }
  }

  /** A lookup of two segments passes through a folder named like the first, directly under the start, that holds the result. */
  lemma ResolveTwoSegments(t: Table, parent: Id, first: string, second: string) returns (mid: Id)
    requires t.Valid() && ResolveExisting(t, parent, [first, second]).Some?
    ensures mid in t.nodes && t.nodes[mid].isFolder
    ensures t.nodes[mid].name == first && t.nodes[mid].parent == Some(parent)
    ensures var f := ResolveExisting(t, parent, [first, second]).value;
            f in t.nodes && t.nodes[f].parent == Some(mid)
  {
    var q := FolderQuery(first, parent);
    mid := t.Search(q)[0];
    FirstIsLeast(t, q);
    assert [first, second][1..] == [second];
    assert ResolveExisting(t, parent, [first, second]) == ResolveExisting(t, mid, [second]);
    var q' := FolderQuery(second, mid);
    var last := t.Search(q')[0];
    assert ResolveExisting(t, mid, [second]) == ResolveExisting(t, last, [second][1..]);
    assert [second][1..] == [];
    FirstIsLeast(t, q');
  }

  /** Two tables with the same folder matches for every segment resolve a path alike. */
  lemma {:induction false} ResolveSameFolders(t: Table, t': Table, parent: Id, segments: seq<string>)
    requires t.Valid() && t'.Valid()
    requires forall s, x :: s in segments ==> t.MatchSet(FolderQuery(s, x)) == t'.MatchSet(FolderQuery(s, x))
    ensures ResolveExisting(t, parent, segments) == ResolveExisting(t', parent, segments)
    decreases |segments|
  {
    if segments != [] {
      var q := FolderQuery(segments[0], parent);
      assert segments[0] in segments;
      SearchDependsOnMatches(t, t', q);
      var found := t.Search(q);
      if found != [] {
        assert forall s :: s in segments[1..] ==> s in segments;
        ResolveSameFolders(t, t', found[0], segments[1..]);
      }
    }
  }

  /**
   * deleteFiles(parent, name): every non-trashed node of any kind named
   * `name` under `parent` is gone, every other node is untouched.
   */
  function Reconcile(t: Table, parent: Id, name: string): (r: Table)
    requires t.Valid()
    ensures r.Valid() && r.next == t.next
    ensures r.Search(SiblingQuery(name, parent)) == []
    ensures forall k :: k in r.nodes <==> k in t.nodes && !SiblingQuery(name, parent).Matches(t.nodes[k])
    ensures forall k :: k in r.nodes ==> r.nodes[k] == t.nodes[k]
  {
    Table(t.nodes - t.MatchSet(SiblingQuery(name, parent)), t.next)
  }

  /** Deleting, one by one, the nodes the sibling search lists is deleteFiles. */
  lemma RemoveListedIsReconcile(t: Table, parent: Id, name: string)
    requires t.Valid()
    ensures t.RemoveAll(t.Search(SiblingQuery(name, parent))) == Reconcile(t, parent, name)
  {
    var r := t.RemoveAll(t.Search(SiblingQuery(name, parent)));
    assert r.nodes == Reconcile(t, parent, name).nodes;
  }

  /** deleteFiles keeps the table a forest. */
  lemma ReconcileKeepsForest(t: Table, parent: Id, name: string)
    requires t.Valid() && Forest(t)
    ensures Forest(Reconcile(t, parent, name))
  {
    var rank :| RankedBy(t, rank);
    assert RankedBy(Reconcile(t, parent, name), rank);
  }

  /** A walk from a node of a forest keeps it a forest: each folder it creates hangs under a node already there. */
  lemma {:induction false} WalkKeepsForest(t: Table, segments: seq<string>, parent: Id, create: bool)
    requires t.Valid() && Forest(t) && parent in t.nodes
    ensures Forest(Walk(t, segments, parent, create).table)
    decreases |segments|
  {
    if segments != [] {
      var found := t.Search(FolderQuery(segments[0], parent));
      if found != [] {
        WalkKeepsForest(t, segments[1..], found[0], true);
      } else if create {
        var t1 := t.Insert(FolderNode(segments[0], parent));
        InsertKeepsForest(t, FolderNode(segments[0], parent));
        WalkKeepsForest(t1, segments[1..], t.next, true);
      }
    }
  }

  /** In a ranked table each segment a lookup follows climbs the rank, so it ends strictly above where it started. */
  lemma {:induction false} ResolveClimbs(t: Table, rank: map<Id, nat>, parent: Id, segments: seq<string>)
    requires t.Valid() && RankedBy(t, rank) && parent in t.nodes
    requires ResolveExisting(t, parent, segments).Some?
    ensures var f := ResolveExisting(t, parent, segments).value;
            && f in t.nodes && parent in rank && f in rank
            && rank[parent] <= rank[f]
            && (segments != [] ==> rank[parent] < rank[f])
    decreases |segments|
  {
    if segments != [] {
      var child := t.Search(FolderQuery(segments[0], parent))[0];
      ParentRanksLower(t, rank, child);
      ResolveClimbs(t, rank, child, segments[1..]);
    }
  }

  /** deleteFiles in one folder leaves every folder search under another parent alone. */
  lemma ReconcileKeepsOtherParents(t: Table, folder: Id, name: string, segment: string, x: Id)
    requires t.Valid() && x != folder
    ensures Reconcile(t, folder, name).MatchSet(FolderQuery(segment, x)) == t.MatchSet(FolderQuery(segment, x))
  {
  }

  /**
   * In a ranked table, deleteFiles in the folder a lookup ends at keeps the
   * lookup, whatever the deleted name: every folder the lookup passes lies
   * below that folder's children in rank, so none of them is deleted.
   */
  lemma {:induction false} ResolveUnderReconcile(t: Table, rank: map<Id, nat>, parent: Id, segments: seq<string>, folder: Id, name: string)
    requires t.Valid() && RankedBy(t, rank) && parent in t.nodes
    requires ResolveExisting(t, parent, segments) == Some(folder)
    ensures ResolveExisting(Reconcile(t, folder, name), parent, segments) == Some(folder)
    decreases |segments|
  {
    if segments != [] {
      var t' := Reconcile(t, folder, name);
      var q := FolderQuery(segments[0], parent);
      ResolveClimbs(t, rank, parent, segments);
      ReconcileKeepsOtherParents(t, folder, name, segments[0], parent);
      SearchDependsOnMatches(t, t', q);
      var child := t.Search(q)[0];
      ResolveUnderReconcile(t, rank, child, segments[1..], folder, name);
    }
  }

  /** No node of the table hangs under `p`. */
  ghost predicate Childless(t: Table, p: Id) {
    forall k :: k in t.nodes ==> t.nodes[k].parent != Some(p)
  }

  /** In a forest, the folder a walk creates has nothing under it yet. */
  lemma CreatedFolderIsChildless(t: Table, name: string, parent: Id)
    requires t.Valid() && Forest(t) && parent in t.nodes
    ensures var t1 := t.Insert(FolderNode(name, parent));
            Forest(t1) && t.next in t1.nodes && Childless(t1, t.next)
  {
    InsertKeepsForest(t, FolderNode(name, parent));
  }

  /** A creating walk from a node with nothing under it creates every segment and ends at a node with nothing under it. */
  lemma {:induction false} WalkFromChildless(t: Table, segments: seq<string>, parent: Id)
    requires t.Valid() && Forest(t) && parent in t.nodes && Childless(t, parent)
    ensures var e := Walk(t, segments, parent, true);
            e.result.Some? && Childless(e.table, e.result.value)
    decreases |segments|
  {
    if segments != [] {
      assert t.MatchSet(FolderQuery(segments[0], parent)) == {};
      CreatedFolderIsChildless(t, segments[0], parent);
      WalkFromChildless(t.Insert(FolderNode(segments[0], parent)), segments[1..], t.next);
    }
  }

  /**
   * A creating walk along segments that do not resolve ends at a folder it
   * created, so at a node with nothing under it.
   */
  lemma {:induction false} WalkMissEndsChildless(t: Table, segments: seq<string>, parent: Id)
    requires t.Valid() && Forest(t) && parent in t.nodes
    requires ResolveExisting(t, parent, segments).None?
    ensures var e := Walk(t, segments, parent, true);
            e.result.Some? && Childless(e.table, e.result.value)
    decreases |segments|
  {
    var q := FolderQuery(segments[0], parent);
    var found := t.Search(q);
    if found != [] {
      FirstIsLeast(t, q);
      WalkMissEndsChildless(t, segments[1..], found[0]);
    } else {
      CreatedFolderIsChildless(t, segments[0], parent);
      WalkFromChildless(t.Insert(FolderNode(segments[0], parent)), segments[1..], t.next);
    }
  }
}
