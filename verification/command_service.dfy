/**
 The command side of the community board: six transitions over the thread store.

 Every transition except creating a root first looks the id up among live nodes and
 fails with NOT_FOUND, writing nothing, when it does not resolve. A transition
 returns the store as it stands afterwards together with its outcome.
 */
module CommandService {
  import opened Results
  import opened Threads

  /** Response of the thread endpoints: the id and the derived "updated" flag. */
  datatype ThreadResponse = ThreadResponse(id: Id, updated: bool)

  /** Response of the reply endpoints, which also report the edit time. */
  datatype ReplyResponse = ReplyResponse(id: Id, updated: bool, updatedAt: Option<Timestamp>)

  /** A committed or rolled-back transaction: the resulting store and the outcome. */
  datatype Tx<+T> = Tx(store: Store, outcome: Result<T>)

  /** Only the node `id` may differ between `s` and `t`; the id space is the same. */
  predicate OnlyNodeChanged(s: Store, t: Store, id: Id) {
    && t.nextId == s.nextId
    && t.nodes.Keys == s.nodes.Keys
    && forall k :: k in s.nodes && k != id ==> t.nodes[k] == s.nodes[k]
  }

  /** No node is revived: a deleted flag, once set, stays set, and no node disappears. */
  predicate DeletionsKept(s: Store, t: Store) {
    && s.nodes.Keys <= t.nodes.Keys
    && forall k :: k in s.nodes && s.nodes[k].deleted ==> t.nodes[k].deleted
  }

  /** `createThread`: save a new root and report it as not updated. */
  function CreateThread(s: Store, userId: int, quoteId: int, now: Timestamp): (r: Tx<ThreadResponse>)
    requires Valid(s)
    ensures Valid(r.store)
    ensures r.outcome.Ok? && r.outcome.value.id == s.nextId && r.store.nextId == s.nextId + 1
    ensures var id := r.outcome.value.id;
      && id !in s.nodes
      && r.store.nodes.Keys == s.nodes.Keys + {id}
      && r.store.nodes[id].id == id
      && r.store.nodes[id].IsRoot()
      && !r.store.nodes[id].deleted
      && r.store.nodes[id].updatedAt == None
      && r.store.nodes[id].children == []
      && r.store.nodes[id].userId == userId
      && r.store.nodes[id].quoteId == quoteId
      && r.store.nodes[id].createdAt == now
    ensures !r.outcome.value.updated
    ensures forall k :: k in s.nodes ==> r.store.nodes[k] == s.nodes[k]
  {
    var thread := NewNode(s.nextId, None, userId, quoteId, now);
    var saved := Insert(s, thread);
    Tx(saved, Ok(ThreadResponse(thread.id, thread.IsUpdated())))
  }

  /** `updateThread`: shared by roots and replies; re-quote a live node and stamp the edit time. */
  function UpdateThread(s: Store, threadId: Id, quoteId: int, now: Timestamp): (r: Tx<ThreadResponse>)
    requires Valid(s)
    ensures Valid(r.store)
    ensures r.outcome.NotFound? <==> !IsLive(s, threadId)
    ensures r.outcome.NotFound? ==> r.outcome.id == threadId && r.store == s
    ensures r.outcome.Ok? ==>
      && r.outcome.value == ThreadResponse(threadId, true)
      && OnlyNodeChanged(s, r.store, threadId)
      && Edited(s.nodes[threadId], r.store.nodes[threadId], quoteId, now)
  {
    match FindByIdAndDeletedFalse(s, threadId)
    case None => Tx(s, NotFound(threadId))
    case Some(thread) =>
      var edited := UpdateContent(thread, quoteId, now);
      Tx(WriteBack(s, edited), Ok(ThreadResponse(edited.id, edited.IsUpdated())))
  }

  /**
   `deleteThread`: a live root is deleted together with everything below it; a live
   non-root reached through this endpoint is deleted alone.
   */
  function DeleteThread(s: Store, threadId: Id): (r: Tx<()>)
    requires Valid(s)
    ensures Valid(r.store)
    ensures r.outcome.NotFound? <==> !IsLive(s, threadId)
    ensures r.outcome.NotFound? ==> r.outcome.id == threadId && r.store == s
    ensures r.outcome.Ok? ==>
      && r.store.nextId == s.nextId
      && r.store.nodes.Keys == s.nodes.Keys
      && r.store.nodes[threadId].deleted
      // every field except the deleted flag is untouched everywhere
      && (forall k :: k in s.nodes ==> r.store.nodes[k] == s.nodes[k].(deleted := r.store.nodes[k].deleted))
    // a root takes all of its replies with it
    ensures r.outcome.Ok? && s.nodes[threadId].IsRoot() ==>
      && (forall j :: 0 <= j < |s.nodes[threadId].children| ==> r.store.nodes[s.nodes[threadId].children[j]].deleted)
      && (forall k :: k in s.nodes ==> (r.store.nodes[k].deleted <==> s.nodes[k].deleted || k in Subtree(s, threadId)))
      && (forall k :: k in s.nodes && s.nodes[k].IsRoot() && k != threadId ==> r.store.nodes[k] == s.nodes[k])
    // a non-root is deleted alone
    ensures r.outcome.Ok? && !s.nodes[threadId].IsRoot() ==> OnlyNodeChanged(s, r.store, threadId)
  {
    match FindByIdAndDeletedFalse(s, threadId)
    case None => Tx(s, NotFound(threadId))
    case Some(thread) =>
      if thread.IsRoot() then
        assert forall k :: k in s.nodes && s.nodes[k].IsRoot() && k != threadId ==> k !in Subtree(s, threadId);
        Tx(MarkDeletedCascade(s, threadId), Ok(()))
      else
        Tx(MarkDeletedOnly(s, threadId), Ok(()))
  }

  /** `createReply`: save a new node under any live parent and register it as the parent's last child. */
  function CreateReply(s: Store, parentThreadId: Id, userId: int, quoteId: int, now: Timestamp): (r: Tx<ReplyResponse>)
    requires Valid(s)
    ensures Valid(r.store)
    ensures r.outcome.NotFound? <==> !IsLive(s, parentThreadId)
    ensures r.outcome.NotFound? ==> r.outcome.id == parentThreadId && r.store == s
    ensures r.outcome.Ok? ==>
      var id := r.outcome.value.id;
      && id == s.nextId && r.store.nextId == s.nextId + 1
      && id !in s.nodes
      && r.outcome.value == ReplyResponse(id, false, None)
      && r.store.nodes.Keys == s.nodes.Keys + {id}
      && r.store.nodes[id].id == id
      && r.store.nodes[id].parent == Some(parentThreadId)
      && !r.store.nodes[id].deleted
      && r.store.nodes[id].updatedAt == None
      && r.store.nodes[id].children == []
      && r.store.nodes[id].userId == userId
      && r.store.nodes[id].quoteId == quoteId
      && r.store.nodes[id].createdAt == now
      // the parent gains the reply as its last child and nothing else
      && r.store.nodes[parentThreadId] == s.nodes[parentThreadId].(children := s.nodes[parentThreadId].children + [id])
      && (forall k :: k in s.nodes && k != parentThreadId ==> r.store.nodes[k] == s.nodes[k])
  {
    match FindByIdAndDeletedFalse(s, parentThreadId)
    case None => Tx(s, NotFound(parentThreadId))
    case Some(parent) =>
      var reply := NewNode(s.nextId, Some(parentThreadId), userId, quoteId, now);
      var saved := AttachReply(s, parentThreadId, reply);
      Tx(saved, Ok(ReplyResponse(reply.id, reply.IsUpdated(), reply.updatedAt)))
  }

  /** `updateReply`: the same edit as `updateThread`, answering with the edit time too. */
  function UpdateReply(s: Store, replyId: Id, quoteId: int, now: Timestamp): (r: Tx<ReplyResponse>)
    requires Valid(s)
    ensures Valid(r.store)
    ensures r.outcome.NotFound? <==> !IsLive(s, replyId)
    ensures r.outcome.NotFound? ==> r.outcome.id == replyId && r.store == s
    ensures r.outcome.Ok? ==>
      && r.outcome.value == ReplyResponse(replyId, true, Some(now))
      && OnlyNodeChanged(s, r.store, replyId)
      && Edited(s.nodes[replyId], r.store.nodes[replyId], quoteId, now)
  {
    match FindByIdAndDeletedFalse(s, replyId)
    case None => Tx(s, NotFound(replyId))
    case Some(reply) =>
      var edited := UpdateContent(reply, quoteId, now);
      Tx(WriteBack(s, edited), Ok(ReplyResponse(edited.id, edited.IsUpdated(), edited.updatedAt)))
  }

  /** `deleteReply`: delete exactly the named live node; no root check and no cascade. */
  function DeleteReply(s: Store, replyId: Id): (r: Tx<()>)
    requires Valid(s)
    ensures Valid(r.store)
    ensures r.outcome.NotFound? <==> !IsLive(s, replyId)
    ensures r.outcome.NotFound? ==> r.outcome.id == replyId && r.store == s
    ensures r.outcome.Ok? ==>
      && OnlyNodeChanged(s, r.store, replyId)
      && r.store.nodes[replyId] == s.nodes[replyId].(deleted := true)
  {
    match FindByIdAndDeletedFalse(s, replyId)
    case None => Tx(s, NotFound(replyId))
    case Some(_) => Tx(MarkDeletedOnly(s, replyId), Ok(()))
  }

  /** The six transitions as one state machine. */
  datatype Command =
    | CreateThreadCmd(userId: int, quoteId: int)
    | UpdateThreadCmd(threadId: Id, quoteId: int)
    | DeleteThreadCmd(threadId: Id)
    | CreateReplyCmd(parentThreadId: Id, userId: int, quoteId: int)
    | UpdateReplyCmd(replyId: Id, quoteId: int)
    | DeleteReplyCmd(replyId: Id)

  /** The store after running `c` at clock reading `now`. */
  function Apply(s: Store, c: Command, now: Timestamp): Store
    requires Valid(s)
  {
    match c
    case CreateThreadCmd(u, q) => CreateThread(s, u, q, now).store
    case UpdateThreadCmd(id, q) => UpdateThread(s, id, q, now).store
    case DeleteThreadCmd(id) => DeleteThread(s, id).store
    case CreateReplyCmd(p, u, q) => CreateReply(s, p, u, q, now).store
    case UpdateReplyCmd(id, q) => UpdateReply(s, id, q, now).store
    case DeleteReplyCmd(id) => DeleteReply(s, id).store
  }

  /** Every transition keeps the store well formed. */
  lemma ApplyPreservesValid(s: Store, c: Command, now: Timestamp)
    requires Valid(s)
    ensures Valid(Apply(s, c, now))
  {
  }

  /** Deletion is terminal and nodes are never removed, whatever transition runs. */
  lemma ApplyKeepsDeletions(s: Store, c: Command, now: Timestamp)
    requires Valid(s)
    ensures DeletionsKept(s, Apply(s, c, now))
  {
  }

  /** A deleted node is terminal: no transition changes any of its fields again. */
  lemma DeletedNodesFrozen(s: Store, c: Command, now: Timestamp)
    requires Valid(s)
    ensures forall k :: k in s.nodes && s.nodes[k].deleted ==> Apply(s, c, now).nodes[k] == s.nodes[k]
  {
  }

  /** After a successful delete the target is no longer live, so every later lookup of it fails. */
  lemma {:induction false} DeleteIsFinal(s: Store, id: Id, userId: int, quoteId: int, now: Timestamp, viaReplyEndpoint: bool)
    requires Valid(s) && IsLive(s, id)
    ensures var t := if viaReplyEndpoint then DeleteReply(s, id).store else DeleteThread(s, id).store;
      && Valid(t)
      && !IsLive(t, id)
      && UpdateThread(t, id, quoteId, now).outcome == NotFound(id)
      && UpdateReply(t, id, quoteId, now).outcome == NotFound(id)
      && DeleteThread(t, id).outcome == NotFound(id)
      && DeleteReply(t, id).outcome == NotFound(id)
      && CreateReply(t, id, userId, quoteId, now).outcome == NotFound(id)
  {
  }
}
