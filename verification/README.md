# Cursor-paginated bulk mailbox operations

This project models the three bulk helpers that the mail console binds to
its authenticated client: `batchDeleteMessages`, `bulkDeleteThreads` and
`bulkCollectThreads` (`repl.js`). Each helper walks a paginated *list*
endpoint and follows the `nextPageToken` cursor from page to page, handling
each page as it arrives:

- `batchDeleteMessages` issues one `batchDelete` request for the page's message ids;
- `bulkDeleteThreads` deletes the page's threads in sequential groups of at most ten;
- `bulkCollectThreads` appends the page's threads to the list it returns.

The mail service is abstracted as a `Service`: the sequence of replies its
list endpoint gives to successive list calls, plus the set of ids whose
deletion it refuses. Each reply is a page or a failure status. A page has an
optional item list and an optional next cursor. Each helper is a pure
function from a service and a query to a `Run`: the trace of requests it
issues, and how it settles.

The requests in a trace are:

- list calls, recording collection, query, `maxResults` and `pageToken`;
- batch deletes, recording their ids;
- thread-delete groups.

A run settles in one of these ways:

- it resolves, to nothing or to the collected threads;
- a list call fails (`ListError`);
- a delete is refused (`DeleteRejected`);
- a thread page has no `threads` field (`ThreadsMissing`);
- the modelled replies run out while a cursor is still present (`RepliesExhausted`).

The source has no iteration cap, so the last case stands for a server that
never stops returning a cursor. It is what makes the walk a terminating
function over the finite reply sequence.

The modules follow the program's structure:

- `Wrappers`: `Option` and `Result`.
- `Seqs`: `Flatten`, `FlatMap` and the front-first `Chunks` that models `splice(0, 10)` in a loop.
- `Mailbox`: pages, replies, requests, errors, and the projections of a trace onto its list calls, its mutations and the ids it asks to delete.
- `Pagination`: the loop shared by all three helpers, `Walk`, generic over a per-page action. It comes with:
  - its closed form, `Expected`, built from `StopIndex`, the first reply the walk does not move past;
  - the walk-level properties: the cursor chain, the stop rule, fail-fast, and the shape of a completed walk.
- `PageActions`: what each helper does with one page, and the per-page fail-fast property.
- `BulkOps`: the three helpers themselves, their end-to-end properties, and guarded versions of the thread helpers (see Findings).

Two behaviours of the code shape the model:

- Both deleting helpers follow the cursor and handle each page before the next list call; neither restarts the listing after deleting (`repl.js:77-88`, `repl.js:93-107`). `Walk` continues from the page's cursor, and `CompletedWalk` states that order.
- The thread helpers dereference `threads` unguarded (`repl.js:98`, `repl.js:118`), so a page without the field rejects the run; the message helper skips a page without `messages` (`repl.js:84`). `AbsentItemsRule` states this asymmetry.

## Model

| member | source | states |
|---|---|---|
| Seqs.Chunks | repl.js:98-100 | The groups concatenate back to the input. Every group has 1..n elements, and all but the last have exactly n. The input is empty iff there are no groups. |
| PageActions.DeleteMessagesPage | repl.js:84-87 | A page with no (or absent) message ids issues nothing and succeeds. Otherwise it issues exactly one batch delete of the page's ids, in order, and succeeds iff none of those ids is refused. A refusal rejects with those ids. |
| PageActions.DeleteGroups | repl.js:98-106 | Groups are issued in order, each after the previous one settles. The result succeeds iff no group is refused, and then every group was issued. Otherwise the issued groups are a prefix whose last element is the first refused group, and the error names it. |
| PageActions.DeleteThreadsPageSpec | repl.js:98-106 | An absent `threads` field rejects before any delete. Otherwise the page succeeds iff none of its threads is refused, and then its requests are the groups of at most ten ids (all but the last exactly ten) that together ask to delete each thread of the page once, in order. A failure ends at the refused group. |
| PageActions.CollectThreadsPage | repl.js:118 | A thread page issues no request. It yields exactly its threads when the field is present, and rejects with `ThreadsMissing` when it is absent. |
| PageActions.HandleFailsFast | repl.js:84-118 | Handling a page never lists. A success means every delete it issued was carried out. A failure is either a missing `threads` field (never on the message path) with nothing issued, or a refusal of its last request after all earlier ones were accepted. |
| Pagination.Walk | repl.js:77-88 | A run always begins with a list call for the given cursor, with `maxResults` 500. |
| Pagination.StopIndex | repl.js:79-82 | The stop index is within the replies. Every reply before it is a page with a cursor whose handling succeeded. The reply at it, if any, is not. |
| Pagination.WalkMatchesExpected | repl.js:78-88 | The recursive loop equals its closed form for every input. The closed form lists the pages up to the stop index, handles each in turn, and settles as the reply at the stop index dictates. |
| Pagination.CursorChain | repl.js:78-82 | The first list call uses the starting cursor. Every later list call uses exactly the `nextPageToken` of the page before it. All list calls use the same collection, query and `maxResults` 500. There are exactly StopIndex + 1 list calls; when the replies run out, the last of them got no reply. |
| Pagination.StopRule | repl.js:79-82 | A run resolves iff the reply at its stop index is a page without a cursor that was handled successfully. It runs out of replies iff it moved past all of them. It fails with a list error iff the stop reply is a failed list call, and then with that call's status. |
| Pagination.FailFast | repl.js:77-121 | There is no retry. A resolved run had every delete accepted. A rejected run had every request before its last one accepted. Its last request is the refused delete, carrying the error's ids, or else the list call whose reply ended it. |
| Pagination.ListCallsGotPages | repl.js:79-82 | Every list call of a run except the last was answered with a page, so a failed or unanswered list call is always the last list call. |
| Pagination.PagesTraceAccepted | repl.js:79-87 | When every page was handled successfully, every request issued for those pages was accepted. |
| Pagination.SuccessCompletes | repl.js:79-82 | A resolved run has listed a complete sequence of pages: every page but the last carries a cursor, the last carries none, and each was handled successfully. |
| Pagination.CompletedWalk | repl.js:79-88 | On a complete listing, the walk stops at the last page. Its trace is, page by page, the list call followed by all requests that handling the page issued, before the next list call. It resolves with the pages' collected items in page order. |
| Pagination.ProjectCompletedWalk | repl.js:79-88 | On a complete listing, any projection that ignores list calls maps the trace to the in-order concatenation of its projections of each page's requests. |
| BulkOps.BatchDeleteMessages | repl.js:75-90 | The first request is `messages.list` with the query, `maxResults` 500 and `pageToken ''`. The message helper never rejects for a missing item field. |
| BulkOps.BulkDeleteThreads | repl.js:92-109 | The first request is `threads.list` with the query, `maxResults` 500 and `pageToken ''`. |
| BulkOps.BulkCollectThreads | repl.js:111-122 | The first request is `threads.list` with the query, `maxResults` 500 and `pageToken ''`. |
| BulkOps.AbsentItemsRule | repl.js:84-118 | A thread helper rejects with `ThreadsMissing` iff the reply at its stop index is a page with no `threads` field, and it never moves past such a page. The message helper never rejects that way. |
| BulkOps.EmptyPagesContinue | repl.js:79-84 | Pages that list nothing but carry a cursor do not stop the loop, and neither do message pages with no `messages` field. After k+1 such replies the walk has issued at least k+2 list calls. |
| BulkOps.MessagesBatchPerPage | repl.js:84-87 | On a complete listing, `batchDeleteMessages` resolves. It issues exactly one batch delete per page with a non-empty `messages` field, naming that page's ids in order, and none for the other pages. So the deleted ids are all listed message ids, in listing order. |
| BulkOps.ThreadsDeletedInGroups | repl.js:95-106 | On a complete listing, `bulkDeleteThreads` resolves. Its mutations are, page by page, the front-first groups of at most ten of the page's thread ids. It issues no other delete. |
| BulkOps.EveryThreadDeletedOnce | repl.js:98-102 | On a complete listing, the ids `bulkDeleteThreads` asks to delete are exactly the listed thread ids, each once, in listing order. |
| BulkOps.CollectReturnsAllThreads | repl.js:114-120 | On a complete listing, `bulkCollectThreads` issues only list calls, one per page, and resolves to the in-order concatenation of every page's threads, with no deduplication. |
| Mailbox.RefusedFlatten | repl.js:99-105 | A concatenation of groups contains a refused id iff one of the groups does. This links per-group refusals to per-page ones. |
| PageActions.GroupRequestsDelete | repl.js:100-102 | The thread-delete groups built from a list of id groups ask to delete exactly the concatenation of those groups. |
| Pagination.WalkCongruent | repl.js:77-88 | The loop depends on what it does with a page only through the pages it lists: two page actions that agree on every listed reply give the same run. |
| Pagination.WalkAvoids | repl.js:77-88 | A rejection that no page's handling produces, and that is neither a failed list call nor running out of replies, never ends a run. |
| PageActions.GuardedHandle | repl.js:84-118 | With the message helper's guard applied to the thread pages, a page that has its item field is handled exactly as written, a page without it is handled like an empty page, and no page rejects for a missing field. |
| BulkOps.GuardedDeleteThreads | repl.js:92-109 | The guarded thread-deleting helper starts from `pageToken ''` and never rejects for a missing `threads` field. |
| BulkOps.GuardedCollectThreads | repl.js:111-122 | The guarded thread-collecting helper starts from `pageToken ''` and never rejects for a missing `threads` field. |
| BulkOps.GuardedAgrees | repl.js:92-122 | On every service whose pages all carry `threads`, the guarded thread helpers issue the same requests and settle the same way as the helpers as written. |
| BulkOps.EmptyResultRejects | repl.js:84-118 | On a query whose first reply has no item field and no cursor, the message helper resolves and both thread helpers as written reject, while the guarded ones resolve with nothing deleted and nothing collected. |

## Left out

- OAuth credential loading, saving and authorisation (`repl.js:27-73`): file I/O and a foreign authentication library.
- Console startup, the reset handler, history persistence and environment loading (`repl.js:1-20`, `repl.js:124-145`): user-interface plumbing.
- The HTTP transport, the request library and the constant `userId: 'me'`. They are replaced by the abstract reply sequence and the request trace.
- The interleaving inside `Promise.all` (`repl.js:99-105`). Each group of up to ten thread deletes is one atomic request that fails iff one of its ids is refused. The order of sibling deletes within a group, and which sibling's rejection surfaces, are not modelled.
- What deletion does to later pages on the server (cursor drift), and rate limiting. These are service behaviour the code does not control. The reply sequence is fixed in advance, so it may stand for any such behaviour of the list endpoint; refusals of deletes may not (next line).
- Service.rejected: whether the service refuses a delete depends only on the ids it names, through one fixed set, never on the requests before it. So a run in which the same id is listed twice and its second delete is refused after the first succeeded, or in which a delete fails once for ids accepted earlier, cannot be represented. The properties hold for every service of this shape.
- Stub: a listed message or thread keeps its `id` and an uninterpreted map of its other fields; `bulkCollectThreads` returns these records as listed, but nothing about the field values (their JSON types, nesting) is modelled.
- Pagination.Walk: the source loops for as long as the server keeps returning a cursor. The model stops with `RepliesExhausted` after the last modelled reply.
- The value of a rejection. The source propagates whatever the client library throws. The model names the cause (`ListError` with a status, `DeleteRejected` with the ids, `ThreadsMissing`).

## Findings

| source | as written | input that shows it | evidently intended | confidence | as-written member | corrected member |
|---|---|---|---|---|---|---|
| repl.js:98-118 | The thread helpers read `data.threads.length` and spread `data.threads` without checking that the field is present, so a list response without it raises a TypeError. | A query matching no thread, answered, as the mail API does for an empty result, by a body without `threads` and without a cursor: `Service([Listed(Page(None, None))], {})`. | Treat a missing `threads` field as an empty page, as the message helper does with `messages` at repl.js:84: delete or collect nothing and resolve. | medium; not executed | BulkOps.EmptyResultRejects | BulkOps.GuardedDeleteThreads |

The guarded helpers (`GuardedDeleteThreads`, `GuardedCollectThreads`) never reject for a missing field, and `GuardedAgrees` proves they coincide with the helpers as written on every service whose pages all carry `threads`. Every property proved about the helpers as written therefore carries over to the guarded helpers on such services. The main model keeps the behaviour as written, including `AbsentItemsRule`, because that is what the code does.
