# Event Feedback Hub — a Dafny model of its feedback core

Event Feedback Hub lets users post star-rated comments on events and read them
in a live, paginated, filterable feed. This project models the parts of the
application with logic in them, as pure functions over immutable data:

- the **feed query** `Query.feedback`. It builds a `WHERE` clause from the
  truthy filter fields, orders rows newest first and takes the
  `LIMIT`/`OFFSET` page. It also counts the matching rows and derives the page
  information. The same module covers `Query.event` and the derived fields
  `Event.feedback`, `Event.feedbackCount`, `Event.averageRating` and
  `Feedback.event`;
- the **`createFeedback` mutation**. It runs four checks in a fixed order,
  appends one row holding the trimmed text, and publishes that row once;
- the **`feedbackAdded` subscription**. Each subscriber receives the
  publication log, narrowed by an optional event id;
- the **pagination widget**. It shows a window of at most five page buttons,
  first/last shortcuts with ellipses, and Previous/Next buttons;
- the **client state logic**. This covers the list's query and subscription
  variables and its live-update rating gate, the form's submit guard, payload
  and reset, and the page's filter/page state with the filter bar's star
  toggle.

The database is an in-memory `Db`: the `events` and `feedback` tables as
sequences in insertion order (`store.dfy`). The table constraints (unique
keys, the foreign key, the rating `CHECK`) form the invariant `Store.Valid`.
The publication log of the pub/sub topic is a `seq<FeedbackRow>`. Ids are
abstract strings and timestamps are integers. The database supplies the new
row's id and timestamp, so `CreateFeedback` takes them as parameters
(`newId`, `now`).

JavaScript semantics the code relies on are written out (`js_values.dfy`):
- Truthiness: `null`, `""` and `0` are falsy. A negative `minRating` is
  therefore a real condition.
- `String.prototype.trim` strips the ECMA-262 WhiteSpace and LineTerminator
  code points. `JsValues.TrimOfPadded` characterises it and
  `JsValues.TrimIdempotent` proves it idempotent.

The feed runs on SQLite (better-sqlite3), so its edge cases follow SQLite:
- A negative `OFFSET` acts as 0.
- A negative `LIMIT` means no limit.
- `Math.ceil(totalCount / pageSize)` is modelled exactly for either sign of
  `pageSize`.
- A `pageSize` of 0 makes `totalPages` infinite or NaN. GraphQL's `Int`
  serialiser rejects that value and the error nulls the non-null `feedback`
  field. The model returns `Failure(IntCannotRepresent)` in that case.

Behaviour of the code that is easy to misread, kept as written:
- The error messages are the code's: "Rating must be between 1 and 5",
  "Content is required", "Author name is required" and "Event not found".
  All four are thrown as plain `Error`s.
- `hasPreviousPage` is `page > 1` whatever the count. It is true for page 3
  of an empty result.
- With a negative page, `hasNextPage` is `page < totalPages`, so it can be
  true for an empty result.
- The code fixes no tie-break for equal timestamps, and `created_at` is a
  `CURRENT_TIMESTAMP` text with one-second resolution, so ties occur. The
  model puts the row inserted later first. The contract of
  `Ordering.SortNewestFirst` states only what every order shares:
  non-increasing `createdAt` and the same bag of rows. The lemmas that put a
  particular row at a particular position (`Ordering.SortOfChronological`,
  `Ordering.SortAppendNewest` and the `Mutations` lemmas about a new row
  coming first) require strictly increasing timestamps. No tie can arise
  there, so their conclusions hold whatever order the database gives equal
  timestamps.

## Model

| member | source | states |
|---|---|---|
| `JsValues.Trim` | lib/graphql/resolvers/mutations.ts:22-28 | `trim()` is empty exactly for a blank string, and otherwise starts and ends with a non-whitespace code point |
| `JsValues.TrimOfPadded` | lib/graphql/resolvers/mutations.ts:39-47 | stripping blank padding from both sides of a tight string gives back that string, so the trimmed value is determined by what `trim` removes |
| `JsValues.TrimIdempotent` | app/components/feedback/FeedbackForm.tsx:86-87 | trimming an already trimmed value changes nothing |
| `Ordering.SortNewestFirst` | lib/graphql/resolvers/queries.ts:59 | `ORDER BY created_at DESC` yields rows in non-increasing `createdAt` order, as a permutation (same multiset) of its input |
| `Ordering.SortOfChronological` | lib/graphql/resolvers/queries.ts:92 | when rows were inserted with strictly increasing timestamps, newest first is exactly reverse insertion order |
| `Ordering.SortKeepsRows` | lib/graphql/resolvers/queries.ts:59 | ordering neither drops nor invents a row |
| `Ordering.SortAppendNewest` | lib/graphql/resolvers/queries.ts:59 | a row strictly newer than all others goes to the front of the ordering |
| `Queries.Matching` | lib/graphql/resolvers/queries.ts:40-59 | the ordered result set holds exactly the stored rows that satisfy every truthy filter condition, newest first; a falsy field (`""`, `0`, null) imposes nothing |
| `Queries.MatchingBag` | lib/graphql/resolvers/queries.ts:64-70 | as a bag the result set holds each satisfying row with its stored multiplicity and nothing else, which is what `COUNT(*)` counts |
| `Queries.LimitOffset` | lib/graphql/resolvers/queries.ts:60-61 | SQLite `LIMIT`/`OFFSET`: item `i` is row `max(offset,0)+i`, and the length is `min(limit, rows left)`, or all rows left for a negative limit |
| `Queries.CeilDiv` | lib/graphql/resolvers/queries.ts:71 | `Math.ceil(n / d)` is the ceiling: `(q-1)*d < n <= q*d` for `d > 0`, mirrored for `d < 0` |
| `Queries.PageItems` | lib/graphql/resolvers/queries.ts:55-62 | the page keeps newest-first order, contains only rows of the result set, and holds at most `pageSize` rows |
| `Queries.MakePageInfo` | lib/graphql/resolvers/queries.ts:71-81 | `currentPage = page`, `hasPreviousPage ⇔ page > 1`, `hasNextPage ⇔ page < totalPages`, and a count of 0 gives 0 pages; `totalPages = ceil(totalCount/pageSize)` for either sign of `pageSize`; for `pageSize > 0`, `hasNextPage ⇔ page*pageSize < totalCount` |
| `Queries.HasNextIffRowsRemain` | lib/graphql/resolvers/queries.ts:77 | for `pageSize > 0`, `page < ceil(n/pageSize)` is equivalent to `page*pageSize < n` |
| `Queries.FeedbackQuery` | lib/graphql/resolvers/queries.ts:29-83 | it fails exactly when `pageSize` is 0. Every item is a stored row meeting the filter, items are newest first and at most `pageSize`, `totalCount` is the size of the whole result set whatever the page, `currentPage`/`hasPreviousPage` follow the page, an empty result has 0 pages, and for `pageSize > 0` `totalPages` is the ceiling of `totalCount/pageSize` and `hasNextPage` holds iff rows remain after this page |
| `Queries.DefaultPagination` | lib/graphql/resolvers/queries.ts:36-38 | without pagination the query serves page 1 with the first ten rows of the result set |
| `Queries.ItemsAreWindow` | lib/graphql/resolvers/queries.ts:36-62 | for `page ≥ 1` and `pageSize > 0` the items are exactly rows `offset, offset+1, …` of the result set, with `offset = (page-1)*pageSize`, as many as remain up to `pageSize`, so a page past the end is empty |
| `Queries.PageItemsWindow` | lib/graphql/resolvers/queries.ts:38 | the same window statement for any newest-first sequence |
| `Queries.FirstPage` | lib/graphql/resolvers/queries.ts:36-38 | page 1 is the leading `pageSize` rows of the result set, or all of them when there are fewer |
| `Queries.EveryRowOnItsPage` | lib/graphql/resolvers/queries.ts:55-62 | row `k` of the result set is item `k mod pageSize` of page `k div pageSize + 1`, so paging through covers every row |
| `Queries.EventById` | lib/graphql/resolvers/queries.ts:21-27 | `Query.event(id)` is null exactly when no event has that id, and otherwise a stored event with that id |
| `Queries.EventByIdFindsStored` | lib/graphql/resolvers/queries.ts:21-27 | with unique keys, `Query.event` returns the one stored event with the id |
| `Queries.FeedbackEvent` | lib/graphql/resolvers/queries.ts:116-122 | `Feedback.event` is null exactly when no event has the referenced id, and otherwise is a stored event with that id; in a valid store it is never null for a stored row |
| `Queries.EventFeedback` | lib/graphql/resolvers/queries.ts:87-94 | `Event.feedback` holds exactly the stored rows with that event id, newest first |
| `Queries.EventFeedbackBag` | lib/graphql/resolvers/queries.ts:87-94 | as a bag, `Event.feedback` holds each of the event's rows once per stored copy |
| `Queries.FeedbackCount` | lib/graphql/resolvers/queries.ts:96-103 | `feedbackCount` equals the length of `Event.feedback` |
| `Queries.EventFeedbackIsFilteredQuery` | lib/graphql/resolvers/queries.ts:42-44 | for a non-empty id, the feed filtered by that event is exactly `Event.feedback` |
| `Queries.AverageRating` | lib/graphql/resolvers/queries.ts:105-112 | `averageRating` is null exactly when the event has no feedback, and otherwise is taken over `feedbackCount` rows |
| `Queries.AverageWithinRange` | lib/graphql/resolvers/queries.ts:105-112 | in a valid store, the average (sum over count) lies between 1 and 5 |
| `Mutations.Validate` | lib/graphql/resolvers/mutations.ts:18-37 | the checks run in the order rating, blank content, blank author, missing event, and the first failing check decides the error |
| `Mutations.ErrorMessage` | lib/graphql/resolvers/mutations.ts:18-37 | the thrown message is "Rating must be between 1 and 5" iff the rating is outside 1..5, "Content is required" iff the rating is fine and the content blank, "Author name is required" iff those pass and the author is blank, "Event not found" iff those pass and no event has the id; nothing is thrown iff every check passes |
| `Mutations.CreateFeedback` | lib/graphql/resolvers/mutations.ts:14-55 | an error leaves store and log as they were. Success appends exactly one row and keeps existing rows and events. The row has the input event and rating, trimmed non-blank text and a rating in 1..5, and is published exactly once and returned |
| `Mutations.CreatePreservesValid` | lib/graphql/resolvers/mutations.ts:39-47 | a successful insert with an unused id keeps unique keys, the foreign key and ratings in 1..5 |
| `Mutations.HandlePreservesPublishedTail` | lib/graphql/resolvers/mutations.ts:49-53 | the publication log stays the tail of the feedback table: every insert is published once, in insertion order, and a failing request changes nothing |
| `Mutations.CreatedFeedbackListedFirst` | lib/graphql/resolvers/queries.ts:92 | with a clock past every stored timestamp, the new row heads its event's `Event.feedback` |
| `Mutations.CreatedFeedbackHeadsFeed` | lib/graphql/resolvers/queries.ts:59 | under the same clock, the new row heads the unfiltered feed |
| `Mutations.NewestRowListedFirst` | lib/graphql/resolvers/queries.ts:87-94 | a row appended with a timestamp past every stored one is the first row of its event's `Event.feedback` |
| `Mutations.NewestRowHeadsFeed` | lib/graphql/resolvers/queries.ts:55-59 | a row appended with a timestamp past every stored one is the first row of the unfiltered feed |
| `Subscriptions.Stream` | lib/graphql/resolvers/subscriptions.ts:8-16 | with a falsy `eventId` a subscriber receives every published record; with `eventId` E it receives a record iff its event id is E |
| `Subscriptions.Received` | lib/graphql/resolvers/subscriptions.ts:17 | after `resolve`, the client receives exactly the filtered stream |
| `Subscriptions.UnfilteredGetsEverything` | lib/graphql/resolvers/subscriptions.ts:11-12 | without a truthy argument the stream is the whole publication log |
| `Subscriptions.StreamPreservesOrder` | lib/graphql/resolvers/subscriptions.ts:9-15 | the stream is an ordered subsequence of the log (nothing invented, order kept) and has no duplicates when the log has none |
| `Subscriptions.PublishExtendsStream` | lib/graphql/resolvers/subscriptions.ts:11-14 | publishing one record appends it to a subscriber's stream exactly when it passes that subscriber's filter |
| `Subscriptions.FilteredWithinUnfiltered` | lib/graphql/resolvers/subscriptions.ts:11-14 | a filtered subscriber receives an ordered part of what an unfiltered one receives |
| `Subscriptions.DifferentEventsDisjoint` | lib/graphql/resolvers/subscriptions.ts:13 | subscribers to different events never receive the same record |
| `Subscriptions.CreateNotifiesMatchingSubscribers` | lib/graphql/resolvers/mutations.ts:49-51 | a successful `createFeedback` reaches exactly the subscribers whose filter the new row passes, as the last item of their streams; a failing one leaves every stream unchanged |
| `PaginationControls.Window` | app/components/filters/PaginationControls.tsx:20-28 | `startPage ≥ 1`, `endPage ≤ totalPages`, at most 5 pages, nonempty when `totalPages ≥ 1`. For `1 ≤ currentPage ≤ totalPages` it holds exactly `min(5, totalPages)` pages including the current one |
| `PaginationControls.PageRange` | app/components/filters/PaginationControls.tsx:30-33 | the page buttons are the consecutive numbers from `startPage` to `endPage`, and a page is shown iff it lies in that range |
| `PaginationControls.Render` | app/components/filters/PaginationControls.tsx:20-95 | the visible pages are a contiguous ascending run within `[1, totalPages]`, at most 5, and include the current page when it exists; `totalPages < 1` shows no page and no shortcut. The "1" shortcut appears iff page 1 is not visible and its ellipsis iff page 2 is not visible either; the last-page shortcut and its ellipsis likewise. Previous/Next are disabled iff there is no previous/next page and target `currentPage ∓ 1` |
| `FeedbackList.GraphqlFilter` | app/components/feedback/FeedbackList.tsx:105-112 | a filter field is sent iff it is truthy, unchanged; the filter variable is null iff no field is truthy |
| `FeedbackList.Variables` | app/components/feedback/FeedbackList.tsx:110-116 | the query variables are the built filter and the page and page size verbatim |
| `FeedbackList.ServerFilterMatchesProp` | app/components/feedback/FeedbackList.tsx:105-112 | the server's `WHERE` clause for the sent variables is exactly the prop's truthy conditions |
| `FeedbackList.SubscriptionEventId` | app/components/feedback/FeedbackList.tsx:119 | the subscription's `eventId` is null when the prop's event id is falsy and that id otherwise |
| `FeedbackList.OnData` | app/components/feedback/FeedbackList.tsx:120-130 | a pushed record is highlighted as new and triggers a refetch iff it passes `matchesRating`; otherwise nothing changes |
| `FeedbackList.LiveGateAgreesWithQuery` | app/components/feedback/FeedbackList.tsx:118-126 | a record passes the subscription filter and `matchesRating` iff it satisfies the feed query's `WHERE` clause |
| `FeedbackList.HighlightedIffSelected` | app/components/feedback/FeedbackList.tsx:118-130 | of the published records, exactly those the feed query selects reach the list and get highlighted |
| `FeedbackList.Render` | app/components/feedback/FeedbackList.tsx:144-221 | the listing shows only when not first-loading, without error and with items, and its pagination controls show iff `totalPages > 1` |
| `FeedbackList.NavigationStaysInRange` | app/components/feedback/FeedbackList.tsx:213-221 | for a real page and page size, an enabled Next targets an existing page, and an enabled Previous targets a page from 1 on |
| `FeedbackForm.Initial` | app/components/feedback/FeedbackForm.tsx:53-58 | the form starts with the preselected event if truthy (else null), empty name and text, and rating 0 |
| `FeedbackForm.Submit` | app/components/feedback/FeedbackForm.tsx:75-92 | nothing is sent when the event is missing, a text is blank or the rating is 0; otherwise the payload carries the trimmed text and the event and rating verbatim |
| `FeedbackForm.IsValidIffSubmits` | app/components/feedback/FeedbackForm.tsx:94-95 | for a non-negative rating, `isValid` holds exactly when submitting sends a payload |
| `FeedbackForm.PayloadPassesBlankChecks` | app/components/feedback/FeedbackForm.tsx:86-87 | every sent payload passes the server's blank-content and blank-author checks and is already trimmed |
| `FeedbackForm.SubmittedPayloadStored` | app/components/feedback/FeedbackForm.tsx:82-91 | with a rating 1..5 and an existing event, the server accepts the payload and stores the form's trimmed text, event and rating |
| `FeedbackForm.OnCompleted` | app/components/feedback/FeedbackForm.tsx:63-69 | after success, name and text are cleared and the rating is 0; the event is reset to null only when none was preselected |
| `FeedbackForm.ResetFormSendsNothing` | app/components/feedback/FeedbackForm.tsx:63-69 | a freshly reset form is not valid and sends nothing |
| `HomePage.HandleEventChange` | app/page.tsx:14-17 | a new event filter is stored and the page returns to 1; the minimum rating is untouched |
| `HomePage.HandleMinRatingChange` | app/page.tsx:19-22 | a new minimum rating is stored and the page returns to 1; the event filter is untouched |
| `HomePage.SetCurrentPage` | app/page.tsx:72 | a page change from the list moves only the page |
| `HomePage.ListVariables` | app/page.tsx:65-72 | the list always asks for page size 5 and never sends a maximum rating; the server clause is the page's two truthy filters |
| `HomePage.InitialShowsWholeFeed` | app/page.tsx:10-12 | the initial state asks for page 1 with no condition on rows |
| `HomePage.FilterChangeShowsFirstPage` | app/page.tsx:14-22 | after an event-filter change or a minimum-rating change the list shows the first five rows of the new result set and no previous page |
| `HomePage.FirstPageShown` | app/page.tsx:65-72 | with the page at 1 the list receives the leading five rows of its result set and no previous page |
| `FilterBar.StarValue` | app/components/filters/FilterBar.tsx:38 | the star widget shows 0 for a null minimum and the minimum itself otherwise (0 for a minimum of 0) |
| `FilterBar.PickStar` | app/components/filters/FilterBar.tsx:40 | picking the current minimum clears it; any other star becomes the minimum |
| `FilterBar.PickStarTwice` | app/components/filters/FilterBar.tsx:40 | picking the same star twice from no minimum, or from that star, returns to the start |
| `FilterBar.ClearButtonTracksPick` | app/components/filters/FilterBar.tsx:44 | after a pick the Clear button is hidden iff the pick cleared the minimum or chose a falsy star |
| `FilterBar.Clear` | app/components/filters/FilterBar.tsx:46 | Clear sets the minimum to null and returns to page 1, keeping the event filter |

## Left out

- Database plumbing: the SQLite connection, WAL pragma, table DDL, seeding and the Drizzle table declarations (lib/db/). Their constraints appear only as the invariant `Store.Valid`.
- Id and timestamp generation are database defaults. They enter as the `newId` and `now` parameters of `Mutations.CreateFeedback`.
- `Mutations.CreatePreservesValid`: assumes `newId` is unused, because the database generates unique ids; a colliding id would make the real insert fail.
- `Queries.AverageRating`: gives the sum and count, not the floating-point value that `avg` and `parseFloat` produce, because the model has no floating point.
- Tie order between calls: SQLite may order rows with equal timestamps differently on two calls, so paging across calls could repeat or skip such rows. The model fixes one order, so its page lemmas (`Queries.ItemsAreWindow`, `Queries.EveryRowOnItsPage`) describe a single fixed order only.
- `Queries.FeedbackQuery`: page and page size are unbounded integers. GraphQL limits them to 32 bits, and the JavaScript product `(page-1)*pageSize` loses precision beyond 2^53. Neither is modelled.
- `Query.events` returns the whole events table with no logic. It is not modelled separately (`Db.events` is that list).
- Transport and libraries: the Apollo client, the server-sent-events link, the HTTP route, the graphql-yoga pub/sub object and the resolver map merge. The Apollo cache, `refetch` and `refetchQueries` behaviour are also left out.
- Concurrency: subscribers joining late, cancelling, backpressure, and the race between the event check and the insert. Publication is a sequential log, and every subscriber sees the whole log.
- Timers: the five-second removal of the "new" highlight and the success-message timeout. The success message itself is also left out.
- Rendering and styling: buttons, text areas, `FeedbackItem` date formatting, the theme provider, layout, `maxLength` attributes and the entry-count label. `EventSelector`'s `"" → null` normalisation is assumed, and the models accept `""` anyway through truthiness.
- The star widget component is not part of this model. Its ratings are taken as arbitrary integers.
