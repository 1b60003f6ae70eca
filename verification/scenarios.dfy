/**
 How the commands change what the thread list shows, and the life of one thread
 from creation to deletion.
 */
module Scenarios {
  import opened Results
  import opened Threads
  import opened CommandService
  import opened QueryService

  /** A newly created root is listed at once, and nothing else enters or leaves the list. */
  lemma CreateThreadIsListed(s: Store, userId: int, quoteId: int, now: Timestamp)
    requires Valid(s)
    ensures var r := CreateThread(s, userId, quoteId, now);
      LiveRootIds(r.store) == LiveRootIds(s) + {r.outcome.value.id}
  {
    var r := CreateThread(s, userId, quoteId, now);
    var id := r.outcome.value.id;
    assert forall k :: k in s.nodes ==> (IsLiveRoot(r.store, k) <==> IsLiveRoot(s, k));
    assert IsLiveRoot(r.store, id);
  }

  /** A reply never changes which threads are listed. */
  lemma CreateReplyKeepsList(s: Store, parentThreadId: Id, userId: int, quoteId: int, now: Timestamp)
    requires Valid(s)
    ensures LiveRootIds(CreateReply(s, parentThreadId, userId, quoteId, now).store) == LiveRootIds(s)
  {
    var r := CreateReply(s, parentThreadId, userId, quoteId, now);
    if r.outcome.Ok? {
      var id := r.outcome.value.id;
      assert !IsLiveRoot(r.store, id);
      assert forall k :: k in s.nodes ==> (IsLiveRoot(r.store, k) <==> IsLiveRoot(s, k));
    }
  }

  /**
   Deleting a live root through either endpoint takes exactly that thread off the list;
   deleting a reply leaves the list as it was.
   */
  lemma DeleteUnlistsOnlyTarget(s: Store, id: Id, viaReplyEndpoint: bool)
    requires Valid(s) && IsLive(s, id)
    ensures var t := if viaReplyEndpoint then DeleteReply(s, id).store else DeleteThread(s, id).store;
      LiveRootIds(t) == LiveRootIds(s) - {id}
  {
    var t := if viaReplyEndpoint then DeleteReply(s, id).store else DeleteThread(s, id).store;
    forall k | k in s.nodes && k != id
      ensures IsLiveRoot(t, k) <==> IsLiveRoot(s, k)
    {
      if s.nodes[k].IsRoot() && !viaReplyEndpoint && s.nodes[id].IsRoot() {
        assert t.nodes[k] == s.nodes[k];
      }
    }
  }

  /** Editing never changes which threads are listed. */
  lemma EditKeepsList(s: Store, id: Id, quoteId: int, now: Timestamp)
    requires Valid(s)
    ensures LiveRootIds(UpdateThread(s, id, quoteId, now).store) == LiveRootIds(s)
    ensures LiveRootIds(UpdateReply(s, id, quoteId, now).store) == LiveRootIds(s)
  {
    var t := UpdateThread(s, id, quoteId, now).store;
    var u := UpdateReply(s, id, quoteId, now).store;
    assert forall k :: k in s.nodes ==> (IsLiveRoot(t, k) <==> IsLiveRoot(s, k));
    assert forall k :: k in s.nodes ==> (IsLiveRoot(u, k) <==> IsLiveRoot(s, k));
  }

  /** The first half of `ReplyDiesWithItsRoot`: the reply is created, listed under the root, and edited. */
  lemma AddAndEditReply(s: Store, root: Id, userId: int, quoteId: int, newQuoteId: int, t1: Timestamp, t2: Timestamp)
    returns (u: Store)
    requires Valid(s) && IsLive(s, root) && s.nodes[root].IsRoot()
    ensures var c := CreateReply(s, root, userId, quoteId, t1);
      && c.outcome == Ok(ReplyResponse(s.nextId, false, None))
      && Valid(c.store)
      && UpdateReply(c.store, s.nextId, newQuoteId, t2) == Tx(u, Ok(ReplyResponse(s.nextId, true, Some(t2))))
    ensures Valid(u) && IsLive(u, root) && u.nodes[root].IsRoot()
    ensures |s.nodes[root].children| < |u.nodes[root].children|
    ensures u.nodes[root].children[|s.nodes[root].children|] == s.nextId
  {
    var c := CreateReply(s, root, userId, quoteId, t1);
    ApplyPreservesValid(s, CreateReplyCmd(root, userId, quoteId), t1);
    var last := |s.nodes[root].children|;
    assert c.store.nodes[root].children[last] == s.nextId;
    u := UpdateReply(c.store, s.nextId, newQuoteId, t2).store;
    ApplyPreservesValid(c.store, UpdateReplyCmd(s.nextId, newQuoteId), t2);
    assert u.nodes[root] == c.store.nodes[root];
  }

  /**
   A reply added to a live root starts un-edited, can be edited, and is removed together
   with its root; afterwards neither can be edited.
   */
  lemma {:induction false} ReplyDiesWithItsRoot(
    s: Store, root: Id, userId: int, quoteId: int, newQuoteId: int, t1: Timestamp, t2: Timestamp)
    requires Valid(s) && IsLive(s, root) && s.nodes[root].IsRoot()
    ensures
      var c := CreateReply(s, root, userId, quoteId, t1);
      && c.outcome == Ok(ReplyResponse(s.nextId, false, None))
      && UpdateReply(c.store, s.nextId, newQuoteId, t2).outcome == Ok(ReplyResponse(s.nextId, true, Some(t2)))
    ensures
      var u := UpdateReply(CreateReply(s, root, userId, quoteId, t1).store, s.nextId, newQuoteId, t2).store;
      var d := DeleteThread(u, root);
      && d.outcome.Ok? && d.store.nodes[root].deleted && d.store.nodes[s.nextId].deleted
      && UpdateThread(d.store, root, newQuoteId, t2).outcome == NotFound(root)
      && UpdateReply(d.store, s.nextId, newQuoteId, t2).outcome == NotFound(s.nextId)
  {
    var u := AddAndEditReply(s, root, userId, quoteId, newQuoteId, t1, t2);
    var d := DeleteThread(u, root);
    assert d.store.nodes[u.nodes[root].children[|s.nodes[root].children|]].deleted;
    DeleteIsFinal(u, root, userId, newQuoteId, t2, false);
    assert !IsLive(d.store, s.nextId);
  }

  /** A new reply shows up as the last reply of its parent's detail; the earlier replies stay as they were. */
  lemma CreateReplyShowsInDetail(s: Store, quotes: QuoteStore, parentThreadId: Id, userId: int, quoteId: int, now: Timestamp)
    requires Valid(s) && IsLive(s, parentThreadId)
    ensures
      var before := GetThreadDetail(s, quotes, parentThreadId);
      var after := GetThreadDetail(CreateReply(s, parentThreadId, userId, quoteId, now).store, quotes, parentThreadId);
      && before.Ok? && after.Ok?
      && |after.value.replies| == |before.value.replies| + 1
      && (forall i :: 0 <= i < |before.value.replies| ==> after.value.replies[i] == before.value.replies[i])
      && var last := after.value.replies[|before.value.replies|];
         && last.replyId == s.nextId && last.userId == userId && last.quoteId == quoteId
         && !last.updated && !last.deleted
         && last.content == GetQuoteContent(quotes, Some(quoteId))
  {
    var c := CreateReply(s, parentThreadId, userId, quoteId, now);
    var before := GetThreadDetail(s, quotes, parentThreadId);
    var after := GetThreadDetail(c.store, quotes, parentThreadId);
    var ch := s.nodes[parentThreadId].children;
    forall i | 0 <= i < |before.value.replies|
      ensures after.value.replies[i] == before.value.replies[i]
    {
      assert ChildLinked(s, parentThreadId, ch[i]);
      assert c.store.nodes[parentThreadId].children[i] == ch[i];
      assert c.store.nodes[ch[i]] == s.nodes[ch[i]];
      assert after.value.replies[i].Fields() == before.value.replies[i].Fields();
    }
    assert c.store.nodes[parentThreadId].children[|ch|] == s.nextId;
  }

  /**
   A deleted reply stays in its parent's detail, flagged deleted, at the same position;
   every other reply is shown as before.
   */
  lemma DeletedReplyStaysInDetail(s: Store, quotes: QuoteStore, parentThreadId: Id, j: nat)
    requires Valid(s) && IsLive(s, parentThreadId)
    requires j < |s.nodes[parentThreadId].children|
    requires IsLive(s, s.nodes[parentThreadId].children[j])
    ensures
      var replyId := s.nodes[parentThreadId].children[j];
      var before := GetThreadDetail(s, quotes, parentThreadId);
      var after := GetThreadDetail(DeleteReply(s, replyId).store, quotes, parentThreadId);
      && before.Ok? && after.Ok?
      && |after.value.replies| == |before.value.replies|
      && after.value.replies[j] == before.value.replies[j].(deleted := true)
      && (forall i :: 0 <= i < |before.value.replies| && i != j ==> after.value.replies[i] == before.value.replies[i])
  {
    var replyId := s.nodes[parentThreadId].children[j];
    var t := DeleteReply(s, replyId).store;
    var before := GetThreadDetail(s, quotes, parentThreadId);
    var after := GetThreadDetail(t, quotes, parentThreadId);
    var ch := s.nodes[parentThreadId].children;
    assert ChildLinked(s, parentThreadId, replyId);
    assert t.nodes[parentThreadId] == s.nodes[parentThreadId];
    forall i | 0 <= i < |ch| && i != j
      ensures after.value.replies[i] == before.value.replies[i]
    {
      assert ch[i] != replyId;
      assert ChildLinked(s, parentThreadId, ch[i]);
    }
    assert after.value.replies[j].Fields() == before.value.replies[j].(deleted := true).Fields();
  }

  /** The first thread on an empty board gets id 1 and its first reply id 2. */
  lemma FirstIdsOnEmptyBoard(t0: Timestamp, t1: Timestamp)
    ensures
      var c1 := CreateThread(Empty, 1, 10, t0);
      var c2 := CreateReply(c1.store, 1, 2, 20, t1);
      && c1.outcome == Ok(ThreadResponse(1, false))
      && c2.outcome == Ok(ReplyResponse(2, false, None))
  {
    EmptyIsValid();
    var c1 := CreateThread(Empty, 1, 10, t0);
    ApplyPreservesValid(Empty, CreateThreadCmd(1, 10), t0);
    assert IsLive(c1.store, 1);
  }
}
