# Bookmark dashboard: the list reconciliation rules

This project models the dashboard view of a small personal bookmark manager. A signed-in user
adds URL/title pairs and deletes them. The view keeps an in-memory list of bookmarks, newest
first. A change feed pushes INSERT and DELETE events for the same account, and the view applies
them to the same list.

The list updaters are pure and live in module `BookmarkList` (`bookmark_list.dfy`):

- the spread-prepend of a row, `Prepend` (the INSERT event and a successful create);
- the filter by id, `RemoveId` (the DELETE event and the local delete);
- the feed dispatch, `ApplyEvent`, and its replay over a sequence of events, `ApplyEvents`.

The view's state is the class `DashboardPage.Dashboard` (`dashboard_page.dfy`). Its fields are
the component's state hooks: `bookmarks`, `url`, `title`, `loading` and `user`. Each handler is
a method. Every asynchronous completion is one atomic step, and the steps may come in any order:

- the user lookup;
- the fetch;
- the insert;
- each feed event.

What the backend answers is the step's argument, an `Option`.

The create handler is split at its `await`. `BeginAdd` is the guard plus `loading := true`.
`FinishAdd` is the completion: prepend the returned row, clear the form, end loading. This lets a
feed event arrive between the two. `AddBookmark` runs both as one step.

The program does not de-duplicate. A created row is prepended by the form handler and
again by its own INSERT event, so the list then holds that id twice, in either arrival order.
The model states this as a property (`CreateAndEchoDuplicate`, `DuplicateRaceSession`); it does
not correct it.

A fetch that returns no data leaves the list as it was. An empty array is data (`if (data)` is
true for `[]`, app/dashboard/page.tsx:62), so it replaces the list with `[]` (`FetchCompleted`).

## Model

| member | source | states |
|---|---|---|
| `BookmarkList.Prepend` | app/dashboard/page.tsx:44 | the row comes first and the old list follows unchanged, one entry longer; its members are the row and the old members, with no check against ids already listed |
| `BookmarkList.RemoveId` | app/dashboard/page.tsx:46 | the result holds exactly the entries of the input whose id differs from the deleted id, none with that id, and is no longer than the input |
| `BookmarkList.ApplyEvent` | app/dashboard/page.tsx:43-47 | INSERT gives `[row] + old` (one longer, no de-duplication); DELETE gives a list without that id whose members are exactly the old members with another id; any other event type leaves the list unchanged |
| `BookmarkList.ApplyEvents` | app/dashboard/page.tsx:42-48 | delivering n events in turn grows the list by at most n entries |
| `BookmarkList.RemoveIdCounts` | app/dashboard/page.tsx:46 | every entry with another id keeps its exact number of occurrences; entries with the deleted id all go |
| `BookmarkList.RemoveIdSubsequence` | app/dashboard/page.tsx:46 | the kept entries stay in their original relative order (the result is a subsequence of the input) |
| `BookmarkList.RemoveIdAbsent` | app/dashboard/page.tsx:46 | deleting an id that is not listed leaves the list unchanged |
| `BookmarkList.RemoveIdIdempotent` | app/dashboard/page.tsx:80 | applying the same delete twice equals applying it once (feed and local delete share the filter) |
| `BookmarkList.RemoveIdCommutes` | app/dashboard/page.tsx:45-46 | two deletes give the same list in either delivery order |
| `BookmarkList.RemoveIdKeepsUnique` | app/dashboard/page.tsx:46 | a list with unique ids keeps unique ids after a delete |
| `BookmarkList.InsertAddsOneEntry` | app/dashboard/page.tsx:43-44 | an INSERT adds exactly one more entry carrying the row's id, whether or not that id is already listed |
| `BookmarkList.InsertOfListedIdDuplicates` | app/dashboard/page.tsx:44 | an INSERT of an id already listed leaves at least two entries with that id, so ids are no longer unique |
| `BookmarkList.CreateAndEchoDuplicate` | app/dashboard/page.tsx:71-73 | the create's prepend (line 72) and the INSERT echo of the same row (line 44) give `[row, row] + old` in either order, two more entries with that id, and a list whose ids are not unique |
| `BookmarkList.DeleteEchoIsNoOp` | app/dashboard/page.tsx:45-46 | the feed's DELETE echo of a local delete of the same id changes nothing |
| `BookmarkList.InsertThenDelete` | app/dashboard/page.tsx:43-46 | INSERT of a row followed by DELETE of its id equals the delete alone on the old list, so older entries with that id go too |
| `BookmarkList.ReplayMembership` | app/dashboard/page.tsx:42-48 | after a run of feed events, an entry is listed exactly when it was listed before and its id was never deleted, or it was inserted and its id was not deleted afterwards |
| `DashboardPage.Dashboard.constructor` | app/dashboard/page.tsx:15-19 | the view starts with an empty list, empty form fields, not loading and no user |
| `DashboardPage.Dashboard.ResolveUser` | app/dashboard/page.tsx:25-26 | the looked-up user (or none) is stored; nothing else changes |
| `DashboardPage.Dashboard.SetUrl` | app/dashboard/page.tsx:111 | typing sets `url`; nothing else changes |
| `DashboardPage.Dashboard.SetTitle` | app/dashboard/page.tsx:119 | typing sets `title`; nothing else changes |
| `DashboardPage.Dashboard.FetchCompleted` | app/dashboard/page.tsx:56-63 | returned data, even an empty array, replaces the whole list whatever it held; no data leaves it unchanged; the form, loading and user are untouched |
| `DashboardPage.Dashboard.OnChange` | app/dashboard/page.tsx:33-47 | with no user nothing changes; otherwise INSERT prepends the row and DELETE removes every entry with the old id; other event types change nothing; the form, loading and user are untouched |
| `DashboardPage.Dashboard.BeginAdd` | app/dashboard/page.tsx:65-69 | the submit goes ahead exactly when url and title are non-empty and a user is present; otherwise nothing changes; when it goes ahead only `loading` becomes true |
| `DashboardPage.Dashboard.FinishAdd` | app/dashboard/page.tsx:70-76 | a returned row is prepended and a missing row leaves the list; in both cases url and title become empty and loading false |
| `DashboardPage.Dashboard.AddBookmark` | app/dashboard/page.tsx:65-77 | a failed guard changes nothing (list, form fields, loading); a passed guard prepends the returned row if any and always leaves url and title empty and loading false |
| `DashboardPage.Dashboard.DeleteBookmark` | app/dashboard/page.tsx:79-82 | the list becomes the old list without that id, and no entry with the id remains, whatever the remote delete does |
| `DashboardPage.DuplicateRaceSession` | app/dashboard/page.tsx:43-82 | a session of sign-in, fetch of one row, add, INSERT echo, feed DELETE and local delete shows `[created, created, first]` after the echo (two entries with the new id) and an empty list at the end |

## Left out

- The backend client calls (`auth.getUser`, the `select`, `insert` and `delete` queries, the channel subscription and `removeChannel`) are foreign I/O. Their results are the `Option` arguments of the steps. The remote delete's result is never read by the code, so `DeleteBookmark` has no such argument.
- The server-side `user_id` filter and the ordering by `created_at` are done by the backend. The view never sorts or filters by owner itself, so the model states no ordering invariant.
- React hooks, effect lifecycles and async interleaving are not modelled as such. Each completion is one atomic step, and any order of steps is allowed. The model does not track a subscription object: `OnChange` does nothing while `user` is none, and no subscription exists while `user` is none.
- `OnChange` also applies events that arrive after sign-in but before the channel has joined. In the program, `setUser` (line 26) only sets `user`; the channel is created later, when the effect at lines 32-54 runs and `subscribe()` joins, so events in that window are missed there but applied in the model.
- `ResolveUser` may run any number of times in the model, though the lookup runs once, on mount (lines 23-30). `FinishAdd` may run with no `BeginAdd` pending, though in the program it only follows a submit that passed the guard. Both over-approximate the program; every stated contract holds for the program's own call orders too.
- Logout and navigation (lines 84-87) are not modelled. They only call the auth backend and the router.
- Rendering is not modelled: the JSX, the empty-list message and `disabled={loading}`. The browser's `type="url"` and `required` input checks are DOM behaviour, and `e.preventDefault()` is a DOM call.
- Columns the backend returns beyond `id`, `url`, `title` and `created_at` (such as `user_id`) are not part of `Bookmark`. The handlers never read them.
- `app/layout.tsx` holds only static metadata and the HTML shell.
