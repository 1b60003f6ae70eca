/**
 The read side of the community board: the paged list of live root threads and the
 detail of one live node with all of its direct replies, each enriched with the
 content of the quote it discusses.

 Quote content comes from a separate quote store, fetched in one batch for the
 distinct quote ids of the nodes being returned.
 */
module QueryService {
  import opened Results
  import opened Threads
  import opened Paging

  /** A book quote as far as the board reads it. */
  datatype Quote = Quote(content: string)

  /** The quote store, by quote id. */
  type QuoteStore = map<int, Quote>

  /** The page size used when the caller asks for none (or for a non-positive one). */
  const DefaultPageSize: nat := 10

  /** The fields every response copies from its node. */
  datatype Header = Header(
    id: Id,
    userId: int,
    quoteId: int,
    createdAt: Timestamp,
    updatedAt: Option<Timestamp>,
    updated: bool,
    deleted: bool,
    reportCount: nat)

  /** What the node itself says about each copied field; "updated" is derived from the edit time. */
  function HeaderOf(n: Node): (h: Header)
    ensures h.updated <==> h.updatedAt.Some?
  {
    Header(n.id, n.userId, n.quoteId, n.createdAt, n.updatedAt, n.IsUpdated(), n.deleted, n.reportCount)
  }

  /** A row of the thread list. */
  datatype ThreadSummary = ThreadSummary(
    threadId: Id, userId: int, quoteId: int, content: Option<string>,
    createdAt: Timestamp, updatedAt: Option<Timestamp>, updated: bool, deleted: bool, reportCount: nat)
  {
    function Fields(): Header {
      Header(threadId, userId, quoteId, createdAt, updatedAt, updated, deleted, reportCount)
    }
  }

  /** A reply inside a thread detail. */
  datatype ReplyView = ReplyView(
    replyId: Id, userId: int, quoteId: int, content: Option<string>,
    createdAt: Timestamp, updatedAt: Option<Timestamp>, updated: bool, deleted: bool, reportCount: nat)
  {
    function Fields(): Header {
      Header(replyId, userId, quoteId, createdAt, updatedAt, updated, deleted, reportCount)
    }
  }

  /** A thread with its replies. */
  datatype ThreadDetail = ThreadDetail(
    threadId: Id, userId: int, quoteId: int, content: Option<string>,
    createdAt: Timestamp, updatedAt: Option<Timestamp>, updated: bool, deleted: bool, reportCount: nat,
    replies: seq<ReplyView>)
  {
    function Fields(): Header {
      Header(threadId, userId, quoteId, createdAt, updatedAt, updated, deleted, reportCount)
    }
  }

  datatype Pagination = Pagination(currentPage: nat, totalPages: nat, totalItems: nat)

  datatype ThreadList = ThreadList(summaries: seq<ThreadSummary>, pagination: Pagination)

  /** A normalised page request. */
  datatype PageRequest = PageRequest(index: nat, size: nat)

  /** Negative page numbers become the first page; a non-positive size becomes the default size. */
  function NormalizePage(page: int, size: int): (r: PageRequest)
    ensures r.size >= 1
    ensures page >= 0 ==> r.index == page
    ensures page < 0 ==> r.index == 0
    ensures size > 0 ==> r.size == size
    ensures size <= 0 ==> r.size == DefaultPageSize
  {
    var pageIndex := if page >= 0 then page else 0;
    var pageSize := if size <= 0 then DefaultPageSize else size;
    PageRequest(pageIndex, pageSize)
  }

  /** Normalising an already normal request changes nothing. */
  lemma NormalizePageIdempotent(page: int, size: int)
    ensures var r := NormalizePage(page, size); NormalizePage(r.index, r.size) == r
  {
  }

  predicate NoDuplicates<T(==)>(xs: seq<T>) {
    forall i, j :: 0 <= i < j < |xs| ==> xs[i] != xs[j]
  }

  /** Stream `distinct()`: every element once, dropping repeats. */
  function Distinct(xs: seq<int>): (r: seq<int>)
    ensures NoDuplicates(r)
    ensures forall x :: x in r <==> x in xs
    ensures |r| <= |xs|
    ensures NoDuplicates(xs) ==> r == xs
    decreases |xs|
  {
    if |xs| == 0 then []
    else
      var init := xs[..|xs| - 1];
      var last := xs[|xs| - 1];
      assert xs == init + [last];
      var rest := Distinct(init);
      if last in rest then rest else rest + [last]
  }

  /** Dropping duplicates twice is the same as dropping them once. */
  lemma DistinctIdempotent(xs: seq<int>)
    ensures Distinct(Distinct(xs)) == Distinct(xs)
  {
  }

  /** The quote ids of `nodes`, each once, in order of first appearance. */
  function QuoteIds(nodes: seq<Node>): (ids: seq<int>)
    ensures NoDuplicates(ids)
    ensures forall i :: 0 <= i < |nodes| ==> nodes[i].quoteId in ids
    ensures forall q :: q in ids ==> exists i :: 0 <= i < |nodes| && nodes[i].quoteId == q
  {
    var all := seq(|nodes|, i requires 0 <= i < |nodes| => nodes[i].quoteId);
    assert forall i :: 0 <= i < |nodes| ==> all[i] == nodes[i].quoteId;
    Distinct(all)
  }

  /** Repository `findAllById` keyed by quote id: the known quotes among `ids`. */
  function FindAllById(quotes: QuoteStore, ids: seq<int>): (m: map<int, Quote>)
    ensures forall q :: q in m <==> q in ids && q in quotes
    ensures forall q :: q in m ==> m[q] == quotes[q]
  {
    map q | q in ids && q in quotes :: quotes[q]
  }

  /** `getQuoteContent`: no quote id or an unknown quote yields no content. */
  function GetQuoteContent(quoteMap: map<int, Quote>, quoteId: Option<int>): (r: Option<string>)
    ensures quoteId.None? ==> r.None?
    ensures quoteId.Some? && quoteId.value !in quoteMap ==> r.None?
    ensures quoteId.Some? && quoteId.value in quoteMap ==> r == Some(quoteMap[quoteId.value].content)
  {
    match quoteId
    case None => None
    case Some(q) => if q in quoteMap then Some(quoteMap[q].content) else None
  }

  /**
   Reading content from the batch fetched for `nodes` gives what a direct lookup in the
   whole quote store would give, for every one of those nodes.
   */
  lemma BatchLookupAgrees(quotes: QuoteStore, nodes: seq<Node>, i: int)
    requires 0 <= i < |nodes|
    ensures GetQuoteContent(FindAllById(quotes, QuoteIds(nodes)), Some(nodes[i].quoteId))
         == GetQuoteContent(quotes, Some(nodes[i].quoteId))
  {
    assert nodes[i].quoteId in QuoteIds(nodes);
  }

  /** `mapThreadSummary`. */
  function MapThreadSummary(n: Node, quoteMap: map<int, Quote>): (r: ThreadSummary)
    ensures r.Fields() == HeaderOf(n)
    ensures r.content == GetQuoteContent(quoteMap, Some(n.quoteId))
  {
    ThreadSummary(n.id, n.userId, n.quoteId, GetQuoteContent(quoteMap, Some(n.quoteId)),
                  n.createdAt, n.updatedAt, n.IsUpdated(), n.deleted, n.reportCount)
  }

  /** `mapReply`. */
  function MapReply(n: Node, quoteMap: map<int, Quote>): (r: ReplyView)
    ensures r.Fields() == HeaderOf(n)
    ensures r.content == GetQuoteContent(quoteMap, Some(n.quoteId))
  {
    ReplyView(n.id, n.userId, n.quoteId, GetQuoteContent(quoteMap, Some(n.quoteId)),
              n.createdAt, n.updatedAt, n.IsUpdated(), n.deleted, n.reportCount)
  }

  /** `mapThreadDetail`. */
  function MapThreadDetail(n: Node, content: Option<string>, replies: seq<ReplyView>): (r: ThreadDetail)
    ensures r.Fields() == HeaderOf(n)
    ensures r.content == content && r.replies == replies
  {
    ThreadDetail(n.id, n.userId, n.quoteId, content,
                 n.createdAt, n.updatedAt, n.IsUpdated(), n.deleted, n.reportCount, replies)
  }

  /** The summaries of `threads`, enriched from the batch fetched for exactly those threads. */
  function Summaries(threads: seq<Node>, quotes: QuoteStore): (r: seq<ThreadSummary>)
    ensures |r| == |threads|
    ensures forall i :: 0 <= i < |r| ==>
      r[i].Fields() == HeaderOf(threads[i]) && r[i].content == GetQuoteContent(quotes, Some(threads[i].quoteId))
  {
    var quoteMap := FindAllById(quotes, QuoteIds(threads));
    var r := seq(|threads|, i requires 0 <= i < |threads| => MapThreadSummary(threads[i], quoteMap));
    assert forall i :: 0 <= i < |threads| ==> r[i].content == GetQuoteContent(quotes, Some(threads[i].quoteId)) by {
      forall i | 0 <= i < |threads|
        ensures r[i].content == GetQuoteContent(quotes, Some(threads[i].quoteId))
      {
        BatchLookupAgrees(quotes, threads, i);
      }
    }
    r
  }

  /** The direct children of a node, in order, as nodes. */
  function ChildNodes(s: Store, id: Id): (cs: seq<Node>)
    requires Valid(s) && id in s.nodes
    ensures |cs| == |s.nodes[id].children|
    ensures forall i :: 0 <= i < |cs| ==> cs[i] == s.nodes[s.nodes[id].children[i]] && cs[i].parent == Some(id)
  {
    var ch := s.nodes[id].children;
    assert forall i :: 0 <= i < |ch| ==> ChildLinked(s, id, ch[i]);
    seq(|ch|, i requires 0 <= i < |ch| => s.nodes[ch[i]])
  }

  /**
   Content read from the batch fetched for a thread and its children equals a direct
   lookup in the whole quote store, for each child.
   */
  lemma ChildLookupAgrees(quotes: QuoteStore, thread: Node, children: seq<Node>, i: int)
    requires 0 <= i < |children|
    ensures GetQuoteContent(FindAllById(quotes, QuoteIds([thread] + children)), Some(children[i].quoteId))
         == GetQuoteContent(quotes, Some(children[i].quoteId))
  {
    var all := [thread] + children;
    assert all[i + 1] == children[i];
    BatchLookupAgrees(quotes, all, i + 1);
  }

  /**
   The reply views of `children`, enriched from the batch fetched for the thread and its
   children together.
   */
  function RepliesOf(thread: Node, children: seq<Node>, quotes: QuoteStore): (r: seq<ReplyView>)
    ensures |r| == |children|
    ensures forall i :: 0 <= i < |r| ==>
      r[i].Fields() == HeaderOf(children[i]) && r[i].content == GetQuoteContent(quotes, Some(children[i].quoteId))
  {
    var quoteMap := FindAllById(quotes, QuoteIds([thread] + children));
    var r := seq(|children|, i requires 0 <= i < |children| => MapReply(children[i], quoteMap));
    assert forall i :: 0 <= i < |r| ==> r[i].content == GetQuoteContent(quotes, Some(children[i].quoteId)) by {
      forall i | 0 <= i < |r|
        ensures r[i].content == GetQuoteContent(quotes, Some(children[i].quoteId))
      {
        ChildLookupAgrees(quotes, thread, children, i);
      }
    }
    r
  }

  /**
   `getThreadDetail`: a live node with every one of its direct replies in order, deleted
   replies included; NOT_FOUND when the id is absent or soft-deleted.
   */
  function GetThreadDetail(s: Store, quotes: QuoteStore, threadId: Id): (r: Result<ThreadDetail>)
    requires Valid(s)
    ensures r.NotFound? <==> !IsLive(s, threadId)
    ensures r.NotFound? ==> r.id == threadId
    ensures r.Ok? ==>
      var n := s.nodes[threadId];
      && r.value.Fields() == HeaderOf(n)
      && r.value.threadId == threadId
      && !r.value.deleted
      && r.value.content == GetQuoteContent(quotes, Some(n.quoteId))
      && |r.value.replies| == |n.children|
      && forall i :: 0 <= i < |n.children| ==>
           && r.value.replies[i].replyId == n.children[i]
           && r.value.replies[i].Fields() == HeaderOf(s.nodes[n.children[i]])
           && r.value.replies[i].content == GetQuoteContent(quotes, Some(s.nodes[n.children[i]].quoteId))
  {
    match FindByIdAndDeletedFalse(s, threadId)
    case None => NotFound(threadId)
    case Some(thread) =>
      var children := ChildNodes(s, threadId);
      var all := [thread] + children;
      var quoteMap := FindAllById(quotes, QuoteIds(all));
      BatchLookupAgrees(quotes, all, 0);
      var threadContent := GetQuoteContent(quoteMap, Some(thread.quoteId));
      var replies := RepliesOf(thread, children, quotes);
      Ok(MapThreadDetail(thread, threadContent, replies))
  }

  /** A live root thread: what the list shows. */
  predicate IsLiveRoot(s: Store, id: Id) {
    IsLive(s, id) && s.nodes[id].IsRoot()
  }

  function LiveRootIds(s: Store): set<Id> {
    set k | k in s.nodes && IsLiveRoot(s, k)
  }

  /** Newest first: creation times never increase along the sequence. */
  predicate NewestFirst(xs: seq<Node>) {
    forall i, j :: 0 <= i < j < |xs| ==> xs[i].createdAt >= xs[j].createdAt
  }

  predicate DistinctIds(xs: seq<Node>) {
    forall i, j :: 0 <= i < j < |xs| ==> xs[i].id != xs[j].id
  }

  /** Where a node created at `t` goes in a newest-first sequence: after every node at least as new. */
  function InsertionPoint(xs: seq<Node>, t: Timestamp): (j: nat)
    requires NewestFirst(xs)
    ensures j <= |xs|
    ensures forall i :: 0 <= i < j ==> xs[i].createdAt >= t
    ensures forall i :: j <= i < |xs| ==> xs[i].createdAt < t
  {
    if |xs| == 0 || xs[0].createdAt < t then 0
    else 1 + InsertionPoint(xs[1..], t)
  }

  /** `xs` with `n` placed at position `j`. */
  function InsertAt(xs: seq<Node>, j: nat, n: Node): (r: seq<Node>)
    requires j <= |xs|
    ensures |r| == |xs| + 1
    ensures forall i :: 0 <= i < j ==> r[i] == xs[i]
    ensures r[j] == n
    ensures forall i :: j < i < |r| ==> r[i] == xs[i - 1]
  {
    xs[..j] + [n] + xs[j..]
  }

  /** Placing a node at its insertion point keeps a sequence newest first. */
  lemma InsertKeepsNewestFirst(xs: seq<Node>, n: Node)
    requires NewestFirst(xs)
    ensures NewestFirst(InsertAt(xs, InsertionPoint(xs, n.createdAt), n))
  {
    var j := InsertionPoint(xs, n.createdAt);
    var r := InsertAt(xs, j, n);
    forall a, b | 0 <= a < b < |r|
      ensures r[a].createdAt >= r[b].createdAt
    {
      if b < j {
      } else if b == j {
      } else if a < j {
        assert r[b] == xs[b - 1];
      } else if a == j {
        assert r[b] == xs[b - 1];
      } else {
        assert r[a] == xs[a - 1] && r[b] == xs[b - 1];
      }
    }
  }

  /** Placing a node with a new id anywhere keeps the ids distinct. */
  lemma InsertKeepsDistinctIds(xs: seq<Node>, j: nat, n: Node)
    requires DistinctIds(xs) && j <= |xs|
    requires forall i :: 0 <= i < |xs| ==> xs[i].id != n.id
    ensures DistinctIds(InsertAt(xs, j, n))
  {
    var r := InsertAt(xs, j, n);
    forall a, b | 0 <= a < b < |r|
      ensures r[a].id != r[b].id
    {
      if b < j {
      } else if b == j {
      } else if a < j {
        assert r[b] == xs[b - 1];
      } else if a == j {
        assert r[b] == xs[b - 1];
      } else {
        assert r[a] == xs[a - 1] && r[b] == xs[b - 1];
      }
    }
  }

  /** `rs` lists the nodes of `s` named by `ids`, each exactly once, as stored, newest first. */
  ghost predicate ListsNewestFirst(s: Store, ids: set<Id>, rs: seq<Node>) {
    && NewestFirst(rs)
    && DistinctIds(rs)
    && (forall i :: 0 <= i < |rs| ==> rs[i].id in ids && rs[i].id in s.nodes && rs[i] == s.nodes[rs[i].id])
    && (forall k :: k in ids ==> exists i :: 0 <= i < |rs| && rs[i].id == k)
  }

  /** `rs` lists every live root of `s` exactly once, as stored, newest first. */
  ghost predicate ListsLiveRootsNewestFirst(s: Store, rs: seq<Node>) {
    ListsNewestFirst(s, LiveRootIds(s), rs)
  }

  /** Inserting one more stored node at its insertion point extends a newest-first listing by it. */
  lemma InsertExtendsListing(s: Store, ids: set<Id>, rs: seq<Node>, n: Node)
    requires ListsNewestFirst(s, ids, rs)
    requires n.id !in ids && n.id in s.nodes && s.nodes[n.id] == n
    ensures ListsNewestFirst(s, ids + {n.id}, InsertAt(rs, InsertionPoint(rs, n.createdAt), n))
  {
    var j := InsertionPoint(rs, n.createdAt);
    var next := InsertAt(rs, j, n);
    InsertKeepsNewestFirst(rs, n);
    InsertKeepsDistinctIds(rs, j, n);
    forall i | 0 <= i < |next|
      ensures next[i].id in ids + {n.id} && next[i].id in s.nodes && next[i] == s.nodes[next[i].id]
    {
      if i > j {
        assert next[i] == rs[i - 1];
      }
    }
    forall m | m in ids + {n.id}
      ensures exists i :: 0 <= i < |next| && next[i].id == m
    {
      if m == n.id {
        assert next[j].id == m;
      } else {
        var i :| 0 <= i < |rs| && rs[i].id == m;
        if i < j {
          assert next[i].id == m;
        } else {
          assert next[i + 1].id == m;
        }
      }
    }
  }

  /**
   Repository `findByDeletedFalseAndParentIsNull` ordered by creation time, newest first:
   every live root exactly once. Roots created at the same time come in no particular order.
   */
  method FindLiveRootsNewestFirst(s: Store) returns (rs: seq<Node>)
    requires Valid(s)
    ensures ListsLiveRootsNewestFirst(s, rs)
    ensures |rs| == |LiveRootIds(s)|
  {
    var roots := LiveRootIds(s);
    var todo := roots;
    rs := [];
    while todo != {}
      invariant todo <= roots
      invariant ListsNewestFirst(s, roots - todo, rs)
      invariant |rs| + |todo| == |roots|
      decreases |todo|
    {
      var k :| k in todo;
      var n := s.nodes[k];
      InsertExtendsListing(s, roots - todo, rs, n);
      assert (roots - todo) + {k} == roots - (todo - {k});
      rs := InsertAt(rs, InsertionPoint(rs, n.createdAt), n);
      todo := todo - {k};
    }
    assert roots - todo == roots;
  }

  /**
   `sums` summarises the run of `all` that starts at position `start`, each row enriched
   from the whole quote store.
   */
  ghost predicate SummarizesWindow(quotes: QuoteStore, sums: seq<ThreadSummary>, all: seq<Node>, start: nat) {
    forall i {:trigger sums[i]} :: 0 <= i < |sums| ==>
      && start + i < |all|
      && sums[i].Fields() == HeaderOf(all[start + i])
      && sums[i].content == GetQuoteContent(quotes, Some(all[start + i].quoteId))
  }

  lemma WindowAt(quotes: QuoteStore, sums: seq<ThreadSummary>, all: seq<Node>, start: nat, i: int)
    requires SummarizesWindow(quotes, sums, all, start) && 0 <= i < |sums|
    ensures start + i < |all| && sums[i].Fields() == HeaderOf(all[start + i])
  {
  }

  /** Summaries of a run of the newest-first live roots show live roots, newest first, each once. */
  lemma WindowOfLiveRoots(s: Store, quotes: QuoteStore, all: seq<Node>, sums: seq<ThreadSummary>, start: nat)
    requires ListsLiveRootsNewestFirst(s, all)
    requires SummarizesWindow(quotes, sums, all, start)
    ensures forall i :: 0 <= i < |sums| ==>
      var id := sums[i].threadId;
      && IsLiveRoot(s, id)
      && sums[i].Fields() == HeaderOf(s.nodes[id])
      && sums[i].content == GetQuoteContent(quotes, Some(s.nodes[id].quoteId))
    ensures forall i, j :: 0 <= i < j < |sums| ==> sums[i].createdAt >= sums[j].createdAt
    ensures forall i, j :: 0 <= i < j < |sums| ==> sums[i].threadId != sums[j].threadId
  {
    forall i | 0 <= i < |sums|
      ensures sums[i].threadId == all[start + i].id
      ensures sums[i].createdAt == all[start + i].createdAt
    {
      assert sums[i].Fields() == HeaderOf(all[start + i]);
    }
    forall i, j | 0 <= i < j < |sums|
      ensures sums[i].createdAt >= sums[j].createdAt && sums[i].threadId != sums[j].threadId
    {
      WindowAt(quotes, sums, all, start, i);
      WindowAt(quotes, sums, all, start, j);
      assert all[start + i].createdAt >= all[start + j].createdAt;
      assert all[start + i].id != all[start + j].id;
    }
  }

  /** The summaries and paging counters for page `req` of the newest-first listing `all`. */
  function ListPage(quotes: QuoteStore, all: seq<Node>, req: PageRequest): (r: ThreadList)
    requires req.size >= 1
    ensures r.pagination == Pagination(req.index, PageCount(|all|, req.size), |all|)
    ensures |r.summaries| == Min(req.size, if |all| <= Offset(req.index, req.size) then 0 else |all| - Offset(req.index, req.size))
    ensures SummarizesWindow(quotes, r.summaries, all, Offset(req.index, req.size))
  {
    var threadPage := PageOf(all, req.index, req.size);
    var threads := threadPage.content;
    var summaries := Summaries(threads, quotes);
    ThreadList(summaries, Pagination(threadPage.number, threadPage.totalPages, threadPage.totalElements))
  }

  /**
   `getThreadList`: one page of the live root threads, newest first, with paging counters
   over all of them.
   */
  method GetThreadList(s: Store, quotes: QuoteStore, page: int, size: int) returns (r: ThreadList, ghost ordered: seq<Node>)
    requires Valid(s)
    // the page is the requested window of the repository's newest-first listing
    ensures ListsLiveRootsNewestFirst(s, ordered) && |ordered| == |LiveRootIds(s)|
    ensures var req := NormalizePage(page, size);
      && r.pagination.currentPage == req.index
      && r.pagination.totalItems == |LiveRootIds(s)|
      && r.pagination.totalPages == PageCount(|LiveRootIds(s)|, req.size)
      && |r.summaries| == Min(req.size, if |ordered| <= Offset(req.index, req.size) then 0 else |ordered| - Offset(req.index, req.size))
      && SummarizesWindow(quotes, r.summaries, ordered, Offset(req.index, req.size))
    ensures forall i :: 0 <= i < |r.summaries| ==>
      var id := r.summaries[i].threadId;
      && IsLiveRoot(s, id)
      && r.summaries[i].Fields() == HeaderOf(s.nodes[id])
      && r.summaries[i].content == GetQuoteContent(quotes, Some(s.nodes[id].quoteId))
    ensures forall i, j :: 0 <= i < j < |r.summaries| ==> r.summaries[i].createdAt >= r.summaries[j].createdAt
    ensures forall i, j :: 0 <= i < j < |r.summaries| ==> r.summaries[i].threadId != r.summaries[j].threadId
  {
    var req := NormalizePage(page, size);
    var all := FindLiveRootsNewestFirst(s);
    ordered := all;
    r := ListPage(quotes, all, req);
    WindowOfLiveRoots(s, quotes, all, r.summaries, Offset(req.index, req.size));
  }
}
