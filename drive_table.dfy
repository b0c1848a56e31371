/**
 * The remote store as an in-memory node table. A node knows its name, its
 * kind, its parent id, its trashed flag and its content, never a path.
 * Ids are handed out by a counter, and a search returns its matches in
 * ascending id order, a deterministic stand-in for the order the store
 * reports.
 */
module DriveTable {
  import opened Wrappers

  type Id = nat

  type Byte = b: int | 0 <= b < 256

  datatype Node = Node(name: string, isFolder: bool, parent: Option<Id>, trashed: bool, content: seq<Byte>)

  /** The folder that discoverPath creates: folder kind, one parent, nothing in it. */
  function FolderNode(name: string, parent: Id): Node {
    Node(name, true, Some(parent), false, [])
  }

  /** The file that storeFile uploads under its one parent. */
  function FileNode(name: string, parent: Id, content: seq<Byte>): Node {
    Node(name, false, Some(parent), false, content)
  }

  /** The mimeType condition of a query: none, "= folder" or "!= folder". */
  datatype Kind = AnyKind | FoldersOnly | FilesOnly

  /**
   * A search: a name, an optional "in parents" condition and a kind
   * condition; trashed nodes never match.
   */
  datatype Query = Query(name: string, under: Option<Id>, kind: Kind) {
    predicate Matches(n: Node) {
      && n.name == name
      && !n.trashed
      && (under.Some? ==> n.parent == under)
      && match kind
         case AnyKind => true
         case FoldersOnly => n.isFolder
         case FilesOnly => !n.isFolder
    }
  }

  /** "name = root and trashed = false": no parent and no kind condition. */
  function RootQuery(root: string): Query {
    Query(root, None, AnyKind)
  }

  /** The folder search of discoverPath. */
  function FolderQuery(name: string, parent: Id): Query {
    Query(name, Some(parent), FoldersOnly)
  }

  /** The search of deleteFiles: any kind. */
  function SiblingQuery(name: string, parent: Id): Query {
    Query(name, Some(parent), AnyKind)
  }

  /** The search of the retrieval: anything but a folder. */
  function FileQuery(name: string, parent: Id): Query {
    Query(name, Some(parent), FilesOnly)
  }

  /** The members of `s` below `bound`, in ascending order. */
  function SortedBelow(s: set<Id>, bound: Id): (r: seq<Id>)
    ensures forall k :: k in r <==> k in s && k < bound
    ensures forall i, j :: 0 <= i < j < |r| ==> r[i] < r[j]
    ensures forall i :: 0 <= i < |r| ==> r[i] < bound
    decreases bound
  {
    if bound == 0 then []
    else SortedBelow(s, bound - 1) + (if bound - 1 in s then [bound - 1] else [])
  }

  /** Raising the bound past every member of `s` adds nothing. */
  lemma {:induction false} SortedBelowStable(s: set<Id>, bound: Id, bound': Id)
    requires forall k :: k in s ==> k < bound
    requires bound <= bound'
    ensures SortedBelow(s, bound) == SortedBelow(s, bound')
    decreases bound' - bound
  {
    if bound < bound' {
      SortedBelowStable(s, bound, bound' - 1);
      assert bound' - 1 !in s;
    }
  }

  /** The remote node table: the nodes by id and the next id to hand out. */
  datatype Table = Table(nodes: map<Id, Node>, next: Id) {

    /** Every id in use was handed out by the counter. */
    ghost predicate Valid() {
      forall k :: k in nodes ==> k < next
    }

    /** The ids of the nodes a query matches. */
    function MatchSet(q: Query): set<Id> {
      set k | k in nodes && q.Matches(nodes[k])
    }

    /** files().list() with a query: every match, each once, in ascending id order. */
    function Search(q: Query): (r: seq<Id>)
      requires Valid()
      ensures forall k :: k in r <==> k in nodes && q.Matches(nodes[k])
      ensures forall i, j :: 0 <= i < j < |r| ==> r[i] < r[j]
      ensures r == [] <==> MatchSet(q) == {}
    {
      var r := SortedBelow(MatchSet(q), next);
      assert r != [] ==> r[0] in MatchSet(q);
      r
    }

    /** files().create(): the node is stored under `next`, a fresh id. */
    function Insert(n: Node): (r: Table)
      requires Valid()
      ensures r.Valid()
      ensures next !in nodes
      ensures r.nodes == nodes[next := n] && r.next == next + 1
    {
      Table(nodes[next := n], next + 1)
    }

    /** Deleting the nodes of `ids`, one after the other in list order. */
    function RemoveAll(ids: seq<Id>): (r: Table)
      requires Valid()
      ensures r.Valid() && r.next == next
      ensures forall k :: k in r.nodes <==> k in nodes && k !in ids
      ensures forall k :: k in r.nodes ==> r.nodes[k] == nodes[k]
      decreases |ids|
    {
      if ids == [] then this
      else RemoveAll(ids[..|ids| - 1]).Remove(ids[|ids| - 1])
    }

    /** files().delete(): the one node goes; its children, if any, keep their parent id. */
    function Remove(id: Id): (r: Table)
      requires Valid()
      ensures r.Valid()
      ensures r.nodes == nodes - {id} && r.next == next
    {
      Table(nodes - {id}, next)
    }
  }

  /**
   * `rank` grows strictly from every node to each of its children present in
   * the table, as a node's depth does.
   */
  ghost predicate RankedBy(t: Table, rank: map<Id, nat>) {
    && (forall k :: k in t.nodes ==> k in rank)
    && (forall k :: k in t.nodes && t.nodes[k].parent.Some? && t.nodes[k].parent.value in t.nodes ==>
          rank[t.nodes[k].parent.value] < rank[k])
  }

  /**
   * The parent links form a forest, as they do in Drive: every parent id was
   * handed out by the counter, and no chain of parents comes back to where
   * it started (a rank that grows from parent to child witnesses this).
   */
  ghost predicate Forest(t: Table) {
    && (forall k :: k in t.nodes && t.nodes[k].parent.Some? ==> t.nodes[k].parent.value < t.next)
    && exists rank :: RankedBy(t, rank)
  }

  /** A node's parent lies strictly below it in any rank of a forest. */
  lemma ParentRanksLower(t: Table, rank: map<Id, nat>, k: Id)
    requires RankedBy(t, rank) && k in t.nodes
    requires t.nodes[k].parent.Some? && t.nodes[k].parent.value in t.nodes
    ensures t.nodes[k].parent.value in rank && k in rank
    ensures rank[t.nodes[k].parent.value] < rank[k]
  {
  }

  /** Creating a node whose parent id was handed out keeps the table a forest. */
  lemma InsertKeepsForest(t: Table, n: Node)
    requires t.Valid() && Forest(t)
    requires n.parent.Some? ==> n.parent.value < t.next
    ensures Forest(t.Insert(n))
  {
    var rank :| RankedBy(t, rank);
    var t' := t.Insert(n);
    var r := if n.parent.Some? && n.parent.value in t.nodes then rank[n.parent.value] + 1 else 0;
    var rank' := rank[t.next := r];
    forall k | k in t'.nodes && t'.nodes[k].parent.Some? && t'.nodes[k].parent.value in t'.nodes
      ensures rank'[t'.nodes[k].parent.value] < rank'[k]
    {
      var p := t'.nodes[k].parent.value;
      if k == t.next {
        assert p < t.next && p in t.nodes;
      } else {
        assert p != t.next;
        ParentRanksLower(t, rank, k);
      }
    }
    assert RankedBy(t', rank');
  }

  /** Deleting a node keeps the table a forest. */
  lemma RemoveKeepsForest(t: Table, id: Id)
    requires t.Valid() && Forest(t)
    ensures Forest(t.Remove(id))
  {
    var rank :| RankedBy(t, rank);
    assert RankedBy(t.Remove(id), rank);
  }

  /** The first search result is the least matching id. */
  lemma FirstIsLeast(t: Table, q: Query)
    requires t.Valid()
    requires t.Search(q) != []
    ensures var first := t.Search(q)[0];
            && first in t.MatchSet(q)
            && forall k :: k in t.MatchSet(q) ==> first <= k
  {
    var r := t.Search(q);
    forall k | k in t.MatchSet(q)
      ensures r[0] <= k
    {
      assert k in r;
      var j :| 0 <= j < |r| && r[j] == k;
      if j > 0 {
        assert r[0] < r[j];
      }
    }
  }

  /** A matching id below every other match is the first search result. */
  lemma LeastIsFirst(t: Table, q: Query, m: Id)
    requires t.Valid()
    requires m in t.MatchSet(q)
    requires forall k :: k in t.MatchSet(q) ==> m <= k
    ensures t.Search(q) != [] && t.Search(q)[0] == m
  {
    var r := t.Search(q);
    assert m in r;
    FirstIsLeast(t, q);
    assert r[0] in t.MatchSet(q);
  }

  /** What a search returns depends only on which nodes match it. */
  lemma SearchDependsOnMatches(t: Table, t': Table, q: Query)
    requires t.Valid() && t'.Valid()
    requires t.MatchSet(q) == t'.MatchSet(q)
    ensures t.Search(q) == t'.Search(q)
  {
    var s := t.MatchSet(q);
    if t.next <= t'.next {
      SortedBelowStable(s, t.next, t'.next);
    } else {
      SortedBelowStable(s, t'.next, t.next);
    }
  }

  /**
   * The remote store behind the Drive client. Its two fields are the ones
   * every call reads and the create and delete calls update.
   */
  class DriveStore {
    var nodes: map<Id, Node>
    var nextId: Id

    /** The table the fields hold. */
    function State(): Table
      reads this
    {
      Table(nodes, nextId)
    }

    ghost predicate Valid()
      reads this
    {
      State().Valid()
    }

    /** A store holding whatever the account holds. */
    constructor (initial: Table)
      requires initial.Valid()
      ensures Valid() && State() == initial
    {
      nodes := initial.nodes;
      nextId := initial.next;
    }

    /** files().list().setQ(q).execute().getFiles(), as ids. */
    method List(q: Query) returns (ids: seq<Id>)
      requires Valid()
      ensures forall k :: k in ids <==> k in nodes && q.Matches(nodes[k])
      ensures forall i, j :: 0 <= i < j < |ids| ==> ids[i] < ids[j]
      ensures ids == State().Search(q)
    {
      ids := State().Search(q);
    }

    /** files().create(metadata).execute(): the new node's id. */
    method Create(n: Node) returns (id: Id)
      requires Valid()
      modifies this
      ensures Valid()
      ensures id == old(nextId) && id !in old(nodes)
      ensures State() == old(State()).Insert(n)
    {
      id := nextId;
      nodes := nodes[id := n];
      nextId := nextId + 1;
    }

    /** files().delete(id).execute(). */
    method Delete(id: Id)
      requires Valid()
      modifies this
      ensures Valid()
      ensures State() == old(State()).Remove(id)
    {
      nodes := nodes - {id};
    }

    /** files().get(id).executeMediaAndDownloadTo(): the node's bytes. */
    method Download(id: Id) returns (content: seq<Byte>)
      requires Valid() && id in nodes
      ensures content == nodes[id].content
    {
      content := nodes[id].content;
    }
  }
}
