# Tagged worker pool and Coda client loops, in Dafny

This project models the core of a small Coda command-line client.

**The tagged worker pool** (`ThreadPool` in `thread_pool.py`) is modelled as a
sequential transition system over an immutable `Pool` value. The value holds:

- the queue of `(work, tag)` actions;
- the running actions;
- the per-tag counters (`_tags`);
- the running count (`_threads`);
- the bounds `max_threads` and `max_awaiting`.

Each of the pool's methods is one atomic step:

- `Enqueue` is the bookkeeping of `add_thread`.
- `Dispatch` is one iteration of the dispatch loop in `run`.
- `Finish` is the accounting at the end of `_f`, once a task has returned or
  raised.
- `Count` is the query `count`.

`AddThread` adds the backpressure busy-wait. `DispatchRound` runs the inner
dispatch loop until its guard fails. `Next` and `Run` interleave the steps
in any order. The invariant lemmas show what callers rely on: a tag's counter
is always its queued plus running work, and `_threads` never exceeds
`max_threads` when the bound is non-negative, and stays 0 otherwise.

**The `Coda` client** has two sequential algorithms:

- The page-token pagination of `_page_enumerable`. It runs against a server
  given as a finite list of responses.
- The producer and consumer loops of `get_workspaces`. Distinct workspace ids
  get indices in order of first occurrence, and results are yielded in index
  order whatever order the tasks finish in.

Atomic steps are an assumption. The Python code relies on the interpreter's
global lock, and its `+=` on a dict entry is not truly atomic. The model treats
each method body as indivisible.

Two details of the pool's code shape the model:

- The backpressure guard on line 45 of `thread_pool.py` is `==`. A submitter
  blocks only when its own append makes the queue length exactly
  `max_awaiting`. A queue already past the bound never blocks (`AddThread`).
  Both statements assume nothing runs between the append and the first
  check of the guard.
  A blocked submitter is released by a second submission that takes the
  queue to `max_awaiting + 1` (`ConcurrentSubmitOvershoots`).
- Dispatch is last-in first-out, because `deque.pop` takes from the end that
  `append` adds to (`DispatchIsLifo`, `DispatchRound`).

## Model

| member | source | states |
|---|---|---|
| `ThreadPool.New` | thread_pool.py:7-13 | A fresh pool has an empty queue, nothing running and every tag's count at 0, and it satisfies the accounting invariant. |
| `ThreadPool.Enqueue` | thread_pool.py:38-43 | A submission raises its tag's count by exactly one (creating the counter at 1) and leaves every other tag's count alone. It appends the action at the right end of the queue and does not touch `_threads` or the running actions. |
| `ThreadPool.Dispatch` | thread_pool.py:32-35 | Dispatch is enabled only with a free slot and a non-empty queue. It raises `_threads` by one and moves the most recently appended action from the queue to the running actions. Counters are unchanged. |
| `ThreadPool.DispatchIsLifo` | thread_pool.py:32-34 | An action submitted while a slot is free is the next one dispatched, and the queue returns to its earlier contents. |
| `ThreadPool.DispatchRound` | thread_pool.py:32-36 | The inner loop starts min(queued, free slots) actions, newest first, and stops only when dispatch is disabled. It keeps the accounting invariant. |
| `ThreadPool.Finish` | thread_pool.py:16-23 | Completion removes the action from the running ones and decrements both its tag's count and `_threads` by one, whatever the outcome. Other tags are unchanged. If the tag is missing from `_tags`, the lookup fails before `_threads` is decremented. |
| `ThreadPool.CompletionFreesSlot` | thread_pool.py:16-23 | Returning and raising release the pool identically. The freed slot lets the next queued action be dispatched. |
| `ThreadPool.CountMatchesWork` | thread_pool.py:25-28 | Under the invariant, `count(tag)` equals the queued plus running actions with that tag. It is never negative, and it is 0 exactly when no such action is queued or running. |
| `ThreadPool.UnsubmittedTagStaysAbsent` | thread_pool.py:16-46 | Only `add_thread` creates a key in `_tags`. A tag absent from the counters stays absent through any steps that never submit under it. |
| `ThreadPool.NeverSubmittedCountsZero` | thread_pool.py:25-28 | In any state reachable from a fresh pool, `count(tag)` is 0 for a tag that was never submitted. |
| `ThreadPool.CountTracksSubmissions` | thread_pool.py:39-42 | While nothing completes, `count(tag)` grows by exactly the number of submissions under `tag`. |
| `ThreadPool.EnqueuePreservesInv` | thread_pool.py:39-43 | Submission keeps the counters equal to the queued plus running work per tag. |
| `ThreadPool.DispatchPreservesInv` | thread_pool.py:32-35 | Dispatch keeps the counters exact and keeps `_threads` equal to the number of running actions and within `max_threads`. |
| `ThreadPool.FinishPreservesInv` | thread_pool.py:16-23 | Completion keeps the counters exact and `_threads` equal to the number of running actions. |
| `ThreadPool.Next` | thread_pool.py:16-46 | No interleaved step changes `max_threads` or `max_awaiting`. |
| `ThreadPool.Run` | thread_pool.py:16-46 | No sequence of steps changes `max_threads` or `max_awaiting`. |
| `ThreadPool.NextPreservesInv` | thread_pool.py:16-46 | Every step keeps the accounting invariant: a submission, a dispatch, a completion, or a disabled step that changes nothing. |
| `ThreadPool.RunPreservesInv` | thread_pool.py:16-46 | Any interleaving of steps from a state satisfying the invariant ends in a state satisfying it. |
| `ThreadPool.ReachableInv` | thread_pool.py:10-43 | Starting from `_threads = 0`, every interleaving keeps `_threads` equal to the number of running actions, and either at most `max_threads` or 0 (the latter when `max_threads` is not positive). Each counter stays the queued plus running work under its tag. |
| `ThreadPool.AwaitBelowBound` | thread_pool.py:45-46 | The busy-wait returns in the first state of the interleaving whose queue length differs from `max_awaiting`. That state is the pool after some prefix of the interleaved steps, and every earlier state had the queue at the bound. If the length already differs, it returns at once with the pool unchanged. |
| `ThreadPool.AddThread` | thread_pool.py:38-46 | `add_thread` appends and then returns in the first state, after the append and a prefix of the interleaved steps, whose queue length differs from `max_awaiting`. With no interleaving it blocks exactly when the append brings the length to the bound. A queue already at or past the bound never blocks. |
| `ThreadPool.DispatchReleasesSubmitter` | thread_pool.py:32-46 | A submitter blocked at the bound is released by one dispatch. |
| `ThreadPool.ConcurrentSubmitOvershoots` | thread_pool.py:38-46 | A second submission releases a submitter blocked at the bound and leaves the queue at `max_awaiting + 1`. |
| `Coda.DefaultFirstUri` | coda.py:95-96 | With the default `limit=25`, the first request is `{base_uri}?limit=25`. |
| `Coda.PagesRead` | coda.py:97-103 | The walk consumes responses up to and including the first one without a token, or all of them when every one carries a token. |
| `Coda.PagesReadStopsAt` | coda.py:101-103 | When response `i - 1` is the first one without a token, exactly `i` responses are read. |
| `Coda.PagesReadAllTokens` | coda.py:97-104 | When every response carries a token, all of them are read. |
| `Coda.FlattenStep` | coda.py:99-100 | Each page adds its items, in order, after those of the earlier pages. |
| `Coda.WalkStep` | coda.py:98-104 | One loop iteration appends the current URI to the requests and the page's items to the output. It sets the next URI from the page's token, or ends the walk when the token is missing or empty. |
| `Coda.Walk` | coda.py:96-104 | The `while uri:` loop ends with requests, items and `uri` matching the reference walk over the responses it consumed. It stops only when `uri` is falsy or the responses run out. |
| `Coda.PageEnumerable` | coda.py:95-104 | The number of requests equals the number of pages read. The requests are the reference URIs in order, and the items are the concatenation of those pages' items. A URI is still pending only if every response carried a token. |
| `Coda.PaginationProtocol` | coda.py:96-104 | The first request is `base?limit=L`. Each later request is `base?limit=L&pageToken=T`, with `T` the previous response's token. Enumeration ends exactly when some response lacks a token. |
| `Coda.FirstOccurrences` | coda.py:139-146 | The distinct ids have no duplicates and contain exactly the ids of the input. |
| `Coda.InFirstOccurrences` | coda.py:142-144 | An id gets a task exactly when it occurs among the documents. |
| `Coda.FirstOccurrencesStep` | coda.py:142-146 | A repeated id is skipped. A new id is appended at the end. |
| `Coda.FirstOccurrenceOrder` | coda.py:139-146 | Task order is strictly increasing in the position of each id's first occurrence. |
| `Coda.IndexNew` | coda.py:144-146 | A new id is added to `used` and gets index `idx_nxt`. The index map stays the exact inverse of the task order. |
| `Coda.IndexStep` | coda.py:141-146 | One loop iteration keeps the task order equal to the first occurrences so far and `idx_nxt` equal to their number. |
| `Coda.AssignIndices` | coda.py:139-146 | Exactly one task is submitted per distinct workspace id, with indices 0, 1, 2, ... in first-occurrence order. `idx_nxt` ends at the number of distinct ids, and each id maps to its task's index. |
| `Coda.AllIndexed` | coda.py:139-146 | After the loop, `used` is the set of all listed workspace ids. |
| `Coda.Completed` | coda.py:135-137 | Whatever order tasks store their results in, the results map holds exactly the indices whose task reached line 137, each with the workspace id of its task. A task that raised stores nothing. |
| `Coda.YieldInOrder` | coda.py:148-151 | The consumer yields `results[0]`, `results[1]`, ... in index order. It stops only at `idx_nxt` or at the first index whose result is not there yet. |
| `Coda.GetWorkspaces` | coda.py:132-151 | The output is always a prefix of the distinct workspace ids in first-occurrence order, and every index it yields has a stored result. It is all of them once every task has stored its result, in any order. |

## Left out

- Threads, `daemon` flags, `sleep` and the endless outer loop of `run` are not modelled. The steps are atomic and any interleaving of them is a `Step` sequence.
- What a task does, and the exception it raises, are not modelled. A task is an opaque `work` number, and a run ends in `Returned` or `Raised`.
- The wait on `count(...)` in `__main__.py` is not modelled. It is command-line glue, and `CountMatchesWork` states the property it relies on.
- HTTP calls are not modelled (`_req_method`, `_get`, `_put`, `get_document`, `get_page`, `update_page`, and the mapping of 401 to `CodaInvalidApiKeyException`). They are thin wrappers over a library that is not part of this model. A server is a finite list of responses instead.
- A response without an `items` key is not modelled. The model assumes every response has one.
- Selenium sign-in, cookie loading and saving, and the browser lookup of a workspace's name (`_get_workspace_name`) are not modelled, because they are I/O. A workspace result carries only its id.
- `coda_classes.py` is not part of this model. It only holds data.
- Coda.PageEnumerable: the extra query parameters (`**kwargs`, sent as `params=kwargs` with every request on line 98) are not modelled. `requests` are the `uri` values only, without those parameters.
- Coda.PaginationProtocol: the request URIs it states are the `uri` values, without the `**kwargs` query parameters that are sent with each of them.
- Coda.PageEnumerable: with finitely many responses, a server that always returns a token appears as a walk that is still pending. It is not an endless loop.
- Coda.GetWorkspaces: a task whose `_get_workspace_name` raises counts as finished for the pool, because lines 18-20 of `thread_pool.py` swallow the exception, but it never reaches line 137 of `coda.py`. Its index is then never in `stored`, and the source's consumer polls for it forever. The model yields the prefix before that index and stops.
- Coda.YieldInOrder: the consumer's poll for a missing result is modelled as stopping at that index, not as waiting for it.
- ThreadPool.AddThread: the append (line 43) and the first check of the guard (line 45) are modelled as one step with nothing in between. In the source, another thread can run in between. A submitter can then block because of another submitter's append, or return in a later state than the model's. The statements "blocks only when its own append makes the length `max_awaiting`" and "never blocks when already past the bound" rest on this.
- ThreadPool.AwaitBelowBound: the submitter is modelled as polling after every step. The real poll sleeps 0.1 s and may see a later state, but the condition it returns on is the same.
