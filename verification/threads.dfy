/**
 The community thread aggregate and its store.

 A thread and a reply are the same node type: a node without a parent is a root
 thread, a node with a parent is a reply. Nodes are never removed; deletion flips
 the `deleted` flag. The store is a finite map from id to node together with the
 next id the database would hand out.
 */
module Threads {
  import opened Results

  type Id = int

  /** Timestamps are abstract clock readings supplied by the caller. */
  type Timestamp = nat

  datatype Node = Node(
    id: Id,
    parent: Option<Id>,
    children: seq<Id>,
    userId: int,
    quoteId: int,
    createdAt: Timestamp,
    updatedAt: Option<Timestamp>,
    deleted: bool,
    reportCount: nat)
  {
    /** A root thread has no parent. */
    predicate IsRoot() {
      parent.None?
    }

    /** The derived "updated" flag: an edit time has been stamped. */
    predicate IsUpdated() {
      updatedAt.Some?
    }
  }

  datatype Store = Store(nodes: map<Id, Node>, nextId: Id)

  /** The store before anything has been saved; database ids start at 1. */
  const Empty: Store := Store(map[], 1)

  /** `id` names a node that has not been soft-deleted. */
  predicate IsLive(s: Store, id: Id) {
    id in s.nodes && !s.nodes[id].deleted
  }

  /** `c` is a well-linked child of `k`: present, younger (larger id), pointing back at `k`. */
  predicate ChildLinked(s: Store, k: Id, c: Id) {
    c in s.nodes && k < c && s.nodes[c].parent == Some(k)
  }

  /** The parent of `k` exists and lists `k` among its children. */
  predicate ParentLinked(s: Store, k: Id)
    requires k in s.nodes && s.nodes[k].parent.Some?
  {
    var p := s.nodes[k].parent.value;
    p in s.nodes && k in s.nodes[p].children
  }

  /**
   The shape the persistent object graph always has: keys are the nodes' own ids
   and lie below `nextId`, every child link is reciprocated by the child's parent
   reference and vice versa, a child is always created after its parent, and no
   child is listed twice.
   */
  ghost predicate Valid(s: Store) {
    && 1 <= s.nextId
    && (forall k :: k in s.nodes ==> s.nodes[k].id == k && 1 <= k < s.nextId)
    && (forall k, i :: k in s.nodes && 0 <= i < |s.nodes[k].children| ==> ChildLinked(s, k, s.nodes[k].children[i]))
    && (forall k, i, j :: k in s.nodes && 0 <= i < j < |s.nodes[k].children| ==> s.nodes[k].children[i] != s.nodes[k].children[j])
    && (forall k :: k in s.nodes && s.nodes[k].parent.Some? ==> ParentLinked(s, k))
  }

  lemma EmptyIsValid()
    ensures Valid(Empty) && Empty.nodes == map[]
  {
  }

  /** Repository lookup `findByIdAndDeletedFalse`: only live nodes are found. */
  function FindByIdAndDeletedFalse(s: Store, id: Id): (r: Option<Node>)
    ensures r.Some? <==> IsLive(s, id)
    ensures r.Some? ==> r.value == s.nodes[id] && !r.value.deleted
  {
    if id in s.nodes && !s.nodes[id].deleted then Some(s.nodes[id]) else None
  }

  /** A freshly built node: no children, not deleted, never edited, no reports. */
  function NewNode(id: Id, parent: Option<Id>, userId: int, quoteId: int, now: Timestamp): (n: Node)
    ensures n.id == id && n.parent == parent && n.userId == userId && n.quoteId == quoteId
    ensures n.children == [] && n.createdAt == now && n.reportCount == 0
    ensures !n.deleted && !n.IsUpdated()
  {
    Node(id, parent, [], userId, quoteId, now, None, false, 0)
  }

  /** `after` is `before` with a new quote and edit time, every other field kept. */
  predicate Edited(before: Node, after: Node, quoteId: int, now: Timestamp) {
    && after.quoteId == quoteId
    && after.updatedAt == Some(now)
    && after.id == before.id
    && after.parent == before.parent
    && after.children == before.children
    && after.userId == before.userId
    && after.createdAt == before.createdAt
    && after.deleted == before.deleted
    && after.reportCount == before.reportCount
  }

  /** Entity `updateThread`: replace the quote and stamp the edit time. */
  function UpdateContent(n: Node, quoteId: int, now: Timestamp): (r: Node)
    ensures Edited(n, r, quoteId, now)
    ensures r.IsUpdated()
  {
    n.(quoteId := quoteId, updatedAt := Some(now))
  }

  /** Entity `addChild`: register `childId` as the last child. */
  function AddChild(parent: Node, childId: Id): (r: Node)
    ensures r.children == parent.children + [childId]
    ensures r == parent.(children := r.children)
  {
    parent.(children := parent.children + [childId])
  }

  /** Repository `save` of a new root: it receives the next id. */
  function Insert(s: Store, n: Node): (r: Store)
    requires Valid(s) && n.id == s.nextId && n.IsRoot() && n.children == []
    ensures Valid(r)
    ensures n.id !in s.nodes
    ensures r.nodes.Keys == s.nodes.Keys + {n.id} && r.nodes[n.id] == n
    ensures forall k :: k in s.nodes ==> r.nodes[k] == s.nodes[k]
    ensures r.nextId == s.nextId + 1
  {
    var r := Store(s.nodes[n.id := n], s.nextId + 1);
    InsertRootValid(s, n, r);
    r
  }

  lemma InsertRootValid(s: Store, n: Node, r: Store)
    requires Valid(s) && n.id == s.nextId && n.IsRoot() && n.children == []
    requires r == Store(s.nodes[n.id := n], s.nextId + 1)
    ensures Valid(r)
  {
    forall k, i | k in r.nodes && 0 <= i < |r.nodes[k].children|
      ensures ChildLinked(r, k, r.nodes[k].children[i])
    {
      assert ChildLinked(s, k, s.nodes[k].children[i]);
    }
    forall k | k in r.nodes && r.nodes[k].parent.Some?
      ensures ParentLinked(r, k)
    {
      assert ParentLinked(s, k);
    }
  }

  /**
   Entity `addChild` on the parent followed by repository `save` of the new reply: the
   reply receives the next id and becomes the parent's last child.
   */
  function AttachReply(s: Store, p: Id, n: Node): (r: Store)
    requires Valid(s) && p in s.nodes
    requires n.id == s.nextId && n.parent == Some(p) && n.children == []
    ensures Valid(r)
    ensures n.id !in s.nodes
    ensures r.nodes.Keys == s.nodes.Keys + {n.id} && r.nodes[n.id] == n
    ensures r.nodes[p] == s.nodes[p].(children := s.nodes[p].children + [n.id])
    ensures forall k :: k in s.nodes && k != p ==> r.nodes[k] == s.nodes[k]
    ensures r.nextId == s.nextId + 1
  {
    var withChild := s.nodes[p := AddChild(s.nodes[p], n.id)];
    var r := Store(withChild[n.id := n], s.nextId + 1);
    AttachReplyValid(s, p, n, r);
    r
  }

  lemma AttachReplyValid(s: Store, p: Id, n: Node, r: Store)
    requires Valid(s) && p in s.nodes
    requires n.id == s.nextId && n.parent == Some(p) && n.children == []
    requires r == Store(s.nodes[p := AddChild(s.nodes[p], n.id)][n.id := n], s.nextId + 1)
    ensures Valid(r)
  {
    var id := n.id;
    forall k, i | k in r.nodes && 0 <= i < |r.nodes[k].children|
      ensures ChildLinked(r, k, r.nodes[k].children[i])
    {
      if k == p && i == |s.nodes[p].children| {
        assert r.nodes[k].children[i] == id;
      } else {
        assert r.nodes[k].children[i] == s.nodes[k].children[i];
        assert ChildLinked(s, k, s.nodes[k].children[i]);
      }
    }
    forall k | k in r.nodes && r.nodes[k].parent.Some?
      ensures ParentLinked(r, k)
    {
      if k == id {
        assert r.nodes[p].children[|s.nodes[p].children|] == id;
      } else {
        assert ParentLinked(s, k);
        var q := s.nodes[k].parent.value;
        var i :| 0 <= i < |s.nodes[q].children| && s.nodes[q].children[i] == k;
        assert r.nodes[q].children[i] == k;
      }
    }
  }

  /** `t` differs from `s` at most in fields other than the id, parent and children of each node. */
  ghost predicate SameLinks(s: Store, t: Store) {
    && t.nextId == s.nextId
    && t.nodes.Keys == s.nodes.Keys
    && forall k :: k in s.nodes ==>
         && t.nodes[k].id == s.nodes[k].id
         && t.nodes[k].parent == s.nodes[k].parent
         && t.nodes[k].children == s.nodes[k].children
  }

  /** Edits and soft deletes never touch links, so the store stays well formed. */
  lemma SameLinksKeepValid(s: Store, t: Store)
    requires Valid(s) && SameLinks(s, t)
    ensures Valid(t)
  {
    forall k | k in t.nodes && t.nodes[k].parent.Some?
      ensures ParentLinked(t, k)
    {
      assert ParentLinked(s, k);
    }
    forall k, i | k in t.nodes && 0 <= i < |t.nodes[k].children|
      ensures ChildLinked(t, k, t.nodes[k].children[i])
    {
      assert ChildLinked(s, k, s.nodes[k].children[i]);
    }
  }

  /** Write back an edited node whose links are unchanged. */
  function WriteBack(s: Store, n: Node): (r: Store)
    requires Valid(s) && n.id in s.nodes
    requires n.parent == s.nodes[n.id].parent && n.children == s.nodes[n.id].children
    ensures Valid(r)
    ensures r.nextId == s.nextId && r.nodes.Keys == s.nodes.Keys
    ensures r.nodes[n.id] == n
    ensures forall k :: k in s.nodes && k != n.id ==> r.nodes[k] == s.nodes[k]
  {
    var r := Store(s.nodes[n.id := n], s.nextId);
    SameLinksKeepValid(s, r);
    r
  }

  /**
   The ids of `k` and of every node below it. Children always carry larger ids than
   their parent, so the walk terminates.
   */
  function Subtree(s: Store, k: Id): (r: set<Id>)
    requires Valid(s) && k in s.nodes
    ensures k in r && r <= s.nodes.Keys
    ensures forall x :: x in r ==> k <= x
    // every member other than k hangs below a member
    ensures forall x :: x in r && x != k ==> s.nodes[x].parent.Some? && s.nodes[x].parent.value in r
    // closed under taking children
    ensures forall x, j :: x in r && 0 <= j < |s.nodes[x].children| ==> s.nodes[x].children[j] in r
    decreases s.nextId - k, 1
  {
    {k} + SubtreesFrom(s, k, 0)
  }

  /** The union of the subtrees of the children of `k` from position `i` on. */
  function SubtreesFrom(s: Store, k: Id, i: nat): (r: set<Id>)
    requires Valid(s) && k in s.nodes && i <= |s.nodes[k].children|
    ensures r <= s.nodes.Keys
    ensures forall x :: x in r ==> k < x
    ensures forall j :: i <= j < |s.nodes[k].children| ==> s.nodes[k].children[j] in r
    ensures forall x :: x in r ==> s.nodes[x].parent.Some? && s.nodes[x].parent.value in r + {k}
    ensures forall x, j :: x in r && 0 <= j < |s.nodes[x].children| ==> s.nodes[x].children[j] in r
    decreases s.nextId - k, 0, |s.nodes[k].children| - i
  {
    if i == |s.nodes[k].children| then {}
    else
      var c := s.nodes[k].children[i];
      assert ChildLinked(s, k, c);
      Subtree(s, c) + SubtreesFrom(s, k, i + 1)
  }

  /** The store with every node in `ids` soft-deleted and nothing else touched. */
  function MarkDeleted(s: Store, ids: set<Id>): (r: Store)
    requires Valid(s)
    ensures Valid(r)
    ensures r.nextId == s.nextId && r.nodes.Keys == s.nodes.Keys
    ensures forall k :: k in s.nodes && k in ids ==> r.nodes[k] == s.nodes[k].(deleted := true)
    ensures forall k :: k in s.nodes && k !in ids ==> r.nodes[k] == s.nodes[k]
  {
    var r := Store(map k | k in s.nodes :: if k in ids then s.nodes[k].(deleted := true) else s.nodes[k], s.nextId);
    SameLinksKeepValid(s, r);
    r
  }

  /** Entity `markDeletedOnly`: only this node. */
  function MarkDeletedOnly(s: Store, id: Id): (r: Store)
    requires Valid(s)
    ensures Valid(r)
    ensures r.nextId == s.nextId && r.nodes.Keys == s.nodes.Keys
    ensures id in s.nodes ==> r.nodes[id] == s.nodes[id].(deleted := true)
    ensures forall k :: k in s.nodes && k != id ==> r.nodes[k] == s.nodes[k]
  {
    MarkDeleted(s, {id})
  }

  /** Entity `markDeletedCascade`: this node and, recursively, every reply below it. */
  function MarkDeletedCascade(s: Store, id: Id): (r: Store)
    requires Valid(s) && id in s.nodes
    ensures Valid(r)
    ensures r.nextId == s.nextId && r.nodes.Keys == s.nodes.Keys
    ensures r.nodes[id] == s.nodes[id].(deleted := true)
    // every child of a node the cascade reaches is reached as well
    ensures forall x, j :: x in Subtree(s, id) && 0 <= j < |s.nodes[x].children| ==>
      r.nodes[s.nodes[x].children[j]] == s.nodes[s.nodes[x].children[j]].(deleted := true)
    // nothing outside the subtree changes, and only the deleted flag changes inside it
    ensures forall k :: k in s.nodes ==>
      r.nodes[k] == (if k in Subtree(s, id) then s.nodes[k].(deleted := true) else s.nodes[k])
  {
    MarkDeleted(s, Subtree(s, id))
  }

  /** A different root never lies in the subtree of a node: cascades stay inside one thread. */
  lemma OtherRootOutsideSubtree(s: Store, k: Id, other: Id)
    requires Valid(s) && k in s.nodes && other in s.nodes
    requires other != k && s.nodes[other].IsRoot()
    ensures other !in Subtree(s, k)
  {
  }

  /** The parent of a non-root node is not in its subtree: deleting a reply's subtree spares the parent. */
  lemma ParentOutsideSubtree(s: Store, k: Id)
    requires Valid(s) && k in s.nodes && !s.nodes[k].IsRoot()
    ensures s.nodes[k].parent.value !in Subtree(s, k)
  {
    assert ParentLinked(s, k);
    var p := s.nodes[k].parent.value;
    var i :| 0 <= i < |s.nodes[p].children| && s.nodes[p].children[i] == k;
    assert ChildLinked(s, p, k);
  }
}
