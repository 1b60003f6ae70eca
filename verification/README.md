# CherryBooker community threads

This project models the community board of CherryBooker. Readers start a **thread**
about a book quote, and others answer it with **replies**. A thread and a reply are the
same node type: a node without a parent is a root thread, and a node with a parent is a
reply. A node is never removed. Deleting one only sets its `deleted` flag, and deleting
a root through the thread endpoint also deletes every reply below it.

The model has six modules:

- `Results`: `Option` and the `Result` of a service call, which is `Ok` or `NotFound(id)`.
- `Threads`: the node aggregate and the store. The store is a finite map from id to
  node plus the next database id. `Valid` is the shape the persistent object graph always
  has: every child link points back to its parent, a child's id is larger than its
  parent's, and no child is listed twice. The module also holds the repository lookup
  `findByIdAndDeletedFalse` and the entity operations (`updateThread`, `addChild`,
  `markDeletedOnly`, `markDeletedCascade`).
- `CommandService`: the six transitions. Each returns the store as it stands afterwards
  together with the outcome. On `NotFound` the store is returned unchanged, because the
  transaction writes nothing.
- `Paging` and `QueryService`: the paged list of live root threads, newest first; the
  detail of a live node with all of its direct replies; and the batch enrichment with
  quote content.
- `Scenarios`: lemmas that chain commands and queries. Examples: what the list and the
  detail show after each command, and the life of a reply that is created, edited and
  then removed with its root.

Clock readings are parameters (`now`), and the quote store is a parameter (`quotes`).

## Model

| member | source | states |
|---|---|---|
| Threads.FindByIdAndDeletedFalse | src/main/java/com/cherry/cherrybookerbe/community/command/service/CommunityThreadCommandService.java:43-44 | a node is found exactly when it exists and is not soft-deleted, and it is returned as stored |
| Threads.NewNode | src/main/java/com/cherry/cherrybookerbe/community/command/service/CommunityThreadCommandService.java:30-34 | a built node has the given parent, user and quote; it has no children, no reports, no edit time, and it is not deleted |
| Threads.UpdateContent | src/main/java/com/cherry/cherrybookerbe/community/command/service/CommunityThreadCommandService.java:46 | the edit replaces the quote and stamps the edit time; id, parent, children, author, creation time, deleted flag and report count are kept; the node then reports itself as updated |
| Threads.AddChild | src/test/java/com/cherry/cherrybookerbe/community/query/service/CommunityThreadQueryServiceTest.java:82-84 | the child id becomes the parent's last child, and nothing else about the parent changes |
| Threads.Insert | src/main/java/com/cherry/cherrybookerbe/community/command/service/CommunityThreadCommandService.java:36 | saving a new root gives it the next id, keeps the store well formed and leaves every existing node unchanged |
| Threads.AttachReply | src/main/java/com/cherry/cherrybookerbe/community/command/service/CommunityThreadCommandService.java:78-79 | the reply gets the next id and becomes the parent's last child; only the parent changes among existing nodes; the store stays well formed |
| Threads.WriteBack | src/main/java/com/cherry/cherrybookerbe/community/command/service/CommunityThreadCommandService.java:46 | writing back an edited node with the same links keeps the store well formed and changes no other node |
| Threads.SameLinksKeepValid | src/main/java/com/cherry/cherrybookerbe/community/command/service/CommunityThreadCommandService.java:46 | edits and soft deletes, which never touch ids, parents or children, keep the object graph well formed |
| Threads.Subtree | src/main/java/com/cherry/cherrybookerbe/community/command/service/CommunityThreadCommandService.java:57-58 | the cascade set holds the node, is closed under taking children, and every other member hangs below a member; it stays inside the store |
| Threads.MarkDeleted | src/main/java/com/cherry/cherrybookerbe/community/command/service/CommunityThreadCommandService.java:56-62 | exactly the named nodes get the deleted flag; every field other than the flag and every other node is untouched |
| Threads.MarkDeletedOnly | src/main/java/com/cherry/cherrybookerbe/community/command/service/CommunityThreadCommandService.java:59-62 | only the named node is flagged deleted; every other node is unchanged |
| Threads.MarkDeletedCascade | src/main/java/com/cherry/cherrybookerbe/community/command/service/CommunityThreadCommandService.java:56-58 | the node is flagged deleted, so is every child of every node the cascade reaches, and nothing outside the subtree changes |
| Threads.OtherRootOutsideSubtree | src/main/java/com/cherry/cherrybookerbe/community/command/service/CommunityThreadCommandService.java:56-58 | a cascade never reaches another root thread |
| Threads.ParentOutsideSubtree | src/main/java/com/cherry/cherrybookerbe/community/command/service/CommunityThreadCommandService.java:59-62 | the parent of a reply lies outside the reply's subtree |
| CommandService.CreateThread | src/main/java/com/cherry/cherrybookerbe/community/command/service/CommunityThreadCommandService.java:29-39 | creation always succeeds with the next id; the new node is a live, childless, never-edited root carrying the request's user and quote; the response says "not updated"; existing nodes are untouched |
| CommandService.UpdateThread | src/main/java/com/cherry/cherrybookerbe/community/command/service/CommunityThreadCommandService.java:42-49 | NOT_FOUND exactly when the id is absent or deleted, and then the store is unchanged; otherwise only that node changes, by the edit, and the response is the id with "updated" |
| CommandService.DeleteThread | src/main/java/com/cherry/cherrybookerbe/community/command/service/CommunityThreadCommandService.java:52-63 | NOT_FOUND exactly when the id is not live, with the store unchanged; a live root is deleted with its whole subtree (every direct reply included) and no other root changes; a live non-root is deleted alone; only deleted flags ever change |
| CommandService.CreateReply | src/main/java/com/cherry/cherrybookerbe/community/command/service/CommunityThreadCommandService.java:68-83 | NOT_FOUND exactly when the parent is not live, with the store unchanged; otherwise the reply gets the next id, points at the parent, is appended as the parent's last child, and is reported as not updated with no edit time; no other node changes |
| CommandService.UpdateReply | src/main/java/com/cherry/cherrybookerbe/community/command/service/CommunityThreadCommandService.java:85-92 | NOT_FOUND exactly when the id is not live, with the store unchanged; otherwise only that node changes, by the edit, and the response carries the edit time |
| CommandService.DeleteReply | src/main/java/com/cherry/cherrybookerbe/community/command/service/CommunityThreadCommandService.java:94-100 | NOT_FOUND exactly when the id is not live, with the store unchanged; otherwise exactly that node is flagged deleted and nothing else changes, even for a root, so it never cascades |
| CommandService.ApplyPreservesValid | src/main/java/com/cherry/cherrybookerbe/community/command/service/CommunityThreadCommandService.java:16-101 | every transition keeps the object graph well formed |
| CommandService.ApplyKeepsDeletions | src/main/java/com/cherry/cherrybookerbe/community/command/service/CommunityThreadCommandService.java:16-101 | no transition removes a node or clears a deleted flag |
| CommandService.DeletedNodesFrozen | src/main/java/com/cherry/cherrybookerbe/community/command/service/CommunityThreadCommandService.java:43-44 | a deleted node is terminal: no transition changes any field of it again, since every lookup skips deleted nodes |
| CommandService.DeleteIsFinal | src/main/java/com/cherry/cherrybookerbe/community/command/service/CommunityThreadCommandService.java:43-44 | after either delete, the id is no longer live, and every later update, delete or reply on it is NOT_FOUND, for any user, quote and time |
| Paging.NextOffset | src/main/java/com/cherry/cherrybookerbe/community/query/service/CommunityThreadQueryService.java:47-51 | arithmetic step: the offset of page `index + 1` is the offset of page `index` plus one page size |
| Paging.OffsetMonotonic | src/main/java/com/cherry/cherrybookerbe/community/query/service/CommunityThreadQueryService.java:47-51 | arithmetic step: the offset `index * size` does not decrease as the page number grows |
| Paging.PageCount | src/main/java/com/cherry/cherrybookerbe/community/query/service/CommunityThreadQueryService.java:75 | the reported page count is the least number of pages that holds all items |
| Paging.Window | src/main/java/com/cherry/cherrybookerbe/community/query/service/CommunityThreadQueryService.java:53-56 | the window holds the items from the start position on, up to the page size, cut at the end |
| Paging.PageOf | src/main/java/com/cherry/cherrybookerbe/community/query/service/CommunityThreadQueryService.java:53-56 | the page holds the items from the page's offset on, and it is full unless it reaches the end; it reports its number, the total count and the page count |
| Paging.PrefixThenWindow | src/main/java/com/cherry/cherrybookerbe/community/query/service/CommunityThreadQueryService.java:53-56 | a prefix followed by the window that starts where the prefix ends is a longer prefix |
| Paging.PagesBeforeIsPrefix | src/main/java/com/cherry/cherrybookerbe/community/query/service/CommunityThreadQueryService.java:53-56 | the first n pages together are exactly the items before page n |
| Paging.PagesCoverAll | src/main/java/com/cherry/cherrybookerbe/community/query/service/CommunityThreadQueryService.java:73-77 | reading every reported page in order gives the whole result, each item once |
| Paging.PagesPastEndAreEmpty | src/main/java/com/cherry/cherrybookerbe/community/query/service/CommunityThreadQueryService.java:73-77 | a page number at or past the reported page count has no content |
| QueryService.HeaderOf | src/test/java/com/cherry/cherrybookerbe/community/query/service/CommunityThreadQueryServiceTest.java:52-53 | the "updated" flag holds exactly when an edit time is present |
| QueryService.NormalizePage | src/main/java/com/cherry/cherrybookerbe/community/query/service/CommunityThreadQueryService.java:43-45 | a negative page becomes page 0 and any other page is kept; a non-positive size becomes 10 and any other size is kept; the size is always at least 1 |
| QueryService.NormalizePageIdempotent | src/main/java/com/cherry/cherrybookerbe/community/query/service/CommunityThreadQueryService.java:43-45 | normalising a normalised request changes nothing |
| QueryService.Distinct | src/main/java/com/cherry/cherrybookerbe/community/query/service/CommunityThreadQueryService.java:59-63 | the result has no duplicates and the same elements as the input, and a duplicate-free input comes back unchanged |
| QueryService.DistinctIdempotent | src/main/java/com/cherry/cherrybookerbe/community/query/service/CommunityThreadQueryService.java:59-63 | dropping duplicates twice is the same as dropping them once |
| QueryService.QuoteIds | src/main/java/com/cherry/cherrybookerbe/community/query/service/CommunityThreadQueryService.java:94-98 | the batch of quote ids has no duplicates, covers the quote of every node being returned, and holds nothing else |
| QueryService.FindAllById | src/main/java/com/cherry/cherrybookerbe/community/query/service/CommunityThreadQueryService.java:65-67 | the quote map holds exactly the known quotes among the requested ids, keyed by quote id |
| QueryService.GetQuoteContent | src/main/java/com/cherry/cherrybookerbe/community/query/service/CommunityThreadQueryService.java:115-119 | no quote id gives no content, an unknown quote gives no content, and a known quote gives its content |
| QueryService.BatchLookupAgrees | src/main/java/com/cherry/cherrybookerbe/community/query/service/CommunityThreadQueryService.java:94-104 | content read from the batch fetched for a set of nodes equals a direct lookup in the whole quote store, for each of those nodes |
| QueryService.MapThreadSummary | src/main/java/com/cherry/cherrybookerbe/community/query/service/CommunityThreadQueryService.java:121-134 | the summary copies every field of the node, derives "updated" from the edit time, and carries the quote's content |
| QueryService.MapReply | src/main/java/com/cherry/cherrybookerbe/community/query/service/CommunityThreadQueryService.java:153-166 | the reply view copies every field of the node, derives "updated" from the edit time, and carries the quote's content |
| QueryService.MapThreadDetail | src/main/java/com/cherry/cherrybookerbe/community/query/service/CommunityThreadQueryService.java:136-151 | the detail copies every field of the node and carries the given content and replies |
| QueryService.Summaries | src/main/java/com/cherry/cherrybookerbe/community/query/service/CommunityThreadQueryService.java:58-71 | one summary per thread, in order, each with the thread's fields and its quote's content |
| QueryService.ChildLookupAgrees | src/main/java/com/cherry/cherrybookerbe/community/query/service/CommunityThreadQueryService.java:90-102 | content read from the batch fetched for a thread and its children equals a direct lookup in the whole quote store, for every child |
| QueryService.RepliesOf | src/main/java/com/cherry/cherrybookerbe/community/query/service/CommunityThreadQueryService.java:100-108 | one reply view per child, in order, each with the child's fields and the content a direct quote lookup gives, although read from the batch fetched for the thread and its children |
| QueryService.ChildNodes | src/main/java/com/cherry/cherrybookerbe/community/query/service/CommunityThreadQueryService.java:90-92 | the children, in order, as stored, each pointing back at the node |
| QueryService.GetThreadDetail | src/main/java/com/cherry/cherrybookerbe/community/query/service/CommunityThreadQueryService.java:84-111 | NOT_FOUND exactly when the id is absent or deleted; otherwise the detail shows the live node and one reply per child, in order, deleted children included, each with its own fields and its quote's content |
| QueryService.InsertionPoint | src/main/java/com/cherry/cherrybookerbe/community/query/service/CommunityThreadQueryService.java:50 | the insertion point lies after every newer-or-equal node and before every older one |
| QueryService.InsertAt | src/main/java/com/cherry/cherrybookerbe/community/query/service/CommunityThreadQueryService.java:50 | the node sits at the given position, with the nodes before and after it in their old order |
| QueryService.InsertKeepsNewestFirst | src/main/java/com/cherry/cherrybookerbe/community/query/service/CommunityThreadQueryService.java:50 | inserting at the insertion point keeps a newest-first list newest first |
| QueryService.InsertKeepsDistinctIds | src/main/java/com/cherry/cherrybookerbe/community/query/service/CommunityThreadQueryService.java:50 | inserting a node whose id is not yet listed keeps the ids distinct |
| QueryService.InsertExtendsListing | src/main/java/com/cherry/cherrybookerbe/community/query/service/CommunityThreadQueryService.java:50-54 | one insertion extends a newest-first listing of some nodes by one more node |
| QueryService.FindLiveRootsNewestFirst | src/main/java/com/cherry/cherrybookerbe/community/query/service/CommunityThreadQueryService.java:47-54 | the listing holds every live root exactly once, as stored, newest first |
| QueryService.WindowOfLiveRoots | src/main/java/com/cherry/cherrybookerbe/community/query/service/CommunityThreadQueryService.java:56-71 | summaries of a run of that listing show live roots only, newest first, each once |
| QueryService.ListPage | src/main/java/com/cherry/cherrybookerbe/community/query/service/CommunityThreadQueryService.java:53-79 | the page's summaries summarise the window at the page's offset, and the pagination echoes the page number, the page count and the total |
| QueryService.GetThreadList | src/main/java/com/cherry/cherrybookerbe/community/query/service/CommunityThreadQueryService.java:41-80 | the result is the normalised page of the newest-first listing of live roots; it shows live roots only, with their fields and quote content, newest first, each once; the counters are the page number, the page count and the number of live roots |
| Scenarios.CreateThreadIsListed | src/main/java/com/cherry/cherrybookerbe/community/command/service/CommunityThreadCommandService.java:29-39 | after creating a thread, the listed threads are the old ones plus the new one |
| Scenarios.CreateReplyKeepsList | src/main/java/com/cherry/cherrybookerbe/community/command/service/CommunityThreadCommandService.java:68-83 | creating a reply never changes which threads are listed |
| Scenarios.DeleteUnlistsOnlyTarget | src/main/java/com/cherry/cherrybookerbe/community/command/service/CommunityThreadCommandService.java:52-63 | deleting a live node through either endpoint removes exactly that id from the listed threads |
| Scenarios.EditKeepsList | src/main/java/com/cherry/cherrybookerbe/community/command/service/CommunityThreadCommandService.java:42-49 | editing never changes which threads are listed |
| Scenarios.CreateReplyShowsInDetail | src/main/java/com/cherry/cherrybookerbe/community/command/service/CommunityThreadCommandService.java:68-83 | a new reply appears as the last reply in its parent's detail, un-edited and not deleted, and the earlier replies are shown as before |
| Scenarios.DeletedReplyStaysInDetail | src/test/java/com/cherry/cherrybookerbe/community/query/service/CommunityThreadQueryServiceTest.java:173-194 | a deleted reply stays at its position in the parent's detail, flagged deleted, and the other replies are shown as before |
| Scenarios.AddAndEditReply | src/main/java/com/cherry/cherrybookerbe/community/command/service/CommunityThreadCommandService.java:68-92 | a reply added to a live root is first reported un-edited, then edited with its edit time |
| Scenarios.ReplyDiesWithItsRoot | src/main/java/com/cherry/cherrybookerbe/community/command/service/CommunityThreadCommandService.java:52-92 | a reply created and edited under a root is deleted with the root, and afterwards neither can be edited |
| Scenarios.FirstIdsOnEmptyBoard | src/main/java/com/cherry/cherrybookerbe/community/command/service/CommunityThreadCommandService.java:29-83 | on an empty board the first thread gets id 1 and its first reply gets id 2 |

## Left out

- The entity `CommunityThread` and its repository are modelled by small functions whose
  shape follows how the services call them: `findByIdAndDeletedFalse`, `updateThread`,
  `addChild`, `markDeletedOnly`, `markDeletedCascade`, `save`, and the derived `isRoot`
  and `isUpdated`.
- Threads.MarkDeletedCascade: it flags the node's whole subtree. `createReply` accepts a
  reply as a parent (CommunityThreadCommandService.java:69-78), so this reaches further
  than the direct children. That the direct children are deleted is stated on its own in
  `CommandService.DeleteThread`.
- Nesting depth is not restricted: `createReply` accepts any live node as a parent, and
  the model does the same.
- Transactions, rollback and isolation are not modelled. Every command is a single atomic
  step, and a `NotFound` outcome returns the input store, as a rolled-back transaction would.
- `LocalDateTime` is not modelled. Clock readings are natural numbers passed in as `now`.
- Java's 32-bit `Integer` ids and quote ids are not modelled; they are unbounded integers,
  so overflow is not modelled either.
- A node's quote id is a plain integer. The source would fail on a null quote id while
  collecting the batch (`Integer::longValue`); `GetQuoteContent` still models its null branch.
- `Collectors.toMap` would throw on two quotes with the same id. The model's quote store
  is a map, so duplicate quote ids cannot occur.
- QueryService.FindLiveRootsNewestFirst: when two roots share a creation time, their
  order is left unspecified, as the database's sort is.
- Spring's `PageRequest` and `Page` internals are modelled only through what the service
  reads: the window content, the page number, the page count and the total.
- The test calls a no-argument `getThreadList()` and a repository method
  `findByDeletedFalseAndParentIsNullOrderByCreatedAtDesc` that the service does not have.
  The model follows the service's paged `getThreadList(page, size)`.
- Controllers, the report package, OAuth and `User`, and the admin report API are
  outside the community thread core and are not part of this model.
