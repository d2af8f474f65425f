# Shared badge checker: the reconciliation pipeline in Dafny

This project models the logic of `badges.py`, a small desktop tool. The tool takes two
platform usernames and lists the badges both users own, newest first. Each listed badge
carries its name, description, award count, creation date and the name of the game
that awards it.

The model covers the pipeline behind the window:

- `get_user_id` resolves a username to a user id.
- `get_all_badges` follows the badge listing's page cursors and builds a map from badge id to entry.
- `get_badge_info` fetches a badge's detail record.
- `get_badge_game_name` resolves the awarding game's name, with the sentinel "Unknown Game" as fallback.
- `compare_badges` intersects the two maps, drops badges without a detail record, fills in
  defaults, parses the creation timestamp defensively and sorts newest first.

Every network answer is an input value:

- The username lookup is a `UserLookup` (status and ids).
- A user's listing is a function from the cursor a request carries to the page it gets back.
- The detail and game endpoints are functions from id to answer.
- `datetime.fromisoformat` is an abstract parser from string to optional instant.

Modules:

- `Data` (data.dfy): the values exchanged with the endpoints, and the `SharedBadge` record.
- `Users` (users.dfy): `get_user_id`.
- `Collector` (collector.dfy): `get_all_badges`. It is imperative: a `while true` loop
  that follows the cursor, and an inner loop that files each entry under its id. Both are
  proved against the specification functions `CursorAt`, `PageAt`, `Entries` and `Store`.
- `Details` (details.dfy): `get_badge_info` and `get_badge_game_name`.
- `Ordering` (ordering.dfy): the newest-first order and the sort. It also contains the
  sort as the source writes it (see Findings).
- `Comparison` (comparison.dfy): timestamp normalisation, record assembly and
  `compare_badges`. The loop over the shared ids is a method, proved against `SharedIds`
  and `MakeSharedBadge`.

Where the intended design and the code disagree, the model follows the code:

- A detail lookup whose request raises is not absorbed. The exception leaves
  `compare_badges` (badges.py:40). The model has no such answer (see Left out).
- Pagination has no bound and no guard against repeated cursors (badges.py:23). The model
  adds neither.

On one point the model follows the intended design instead of the code. The intended
design puts a badge without a creation instant after all the others. In the code
(badges.py:95) that happens only when every present instant is offset-naive. If the list
also holds an offset-aware instant, which any "…Z" timestamp parses to, the sort raises
TypeError. `CompareBadges` uses the intended order. The sort as the code writes it is
modelled beside it (see Findings).

## Model

| member | source | states |
|---|---|---|
| Users.GetUserId | badges.py:10-18 | The lookup succeeds exactly when the status is 200 and the result list is non-empty, and then yields the first id. A non-200 status gives the "failed to fetch" error, and an empty list gives "not found". |
| Collector.GetAllBadges | badges.py:20-36 | The first request carries no cursor. Every later request carries the previous page's non-empty `nextPageCursor`. The requests stop at the first page that fails or has no cursor, so their number is that page's index plus one. The call fails, returning no map, exactly when that last page's status is not 200. Otherwise the map is the pages' entries stored in order. |
| Collector.StorePage | badges.py:31-32 | Filing a page's entries one by one under their ids gives `Store` of the map and the page. |
| Collector.RequestsFollowCursors | badges.py:22-35 | While no earlier page ends the listing, request 0 has no cursor and each request k > 0 carries page k-1's non-empty cursor. |
| Collector.StoreAppend | badges.py:31-32 | Storing two sequences of entries one after the other is storing their concatenation. |
| Collector.StoreKeys | badges.py:31-32 | After storing, the keys are the old keys plus the ids of the stored entries. |
| Collector.StoreOtherIds | badges.py:31-32 | Storing entries with other ids leaves an id's presence and value unchanged. |
| Collector.StoreLastWins | badges.py:31-32 | Within one sequence, the value stored under an id is that id's last entry. |
| Collector.StoreKeyedById | badges.py:31-32 | Every value of the collected map is one of the entries, filed under its own id. |
| Collector.EntriesIds | badges.py:23-35 | An id occurs among the entries of the first n pages exactly when one of those pages holds it. |
| Collector.CollectedKeys | badges.py:20-36 | The collected map's keys are exactly the union of the ids on the fetched pages. |
| Collector.CollectedLastWins | badges.py:23-35 | For an id seen several times, the collected value is its last occurrence: a later page wins over an earlier one, and within a page a later position wins. |
| Details.GetBadgeInfo | badges.py:38-43 | A detail record comes back exactly when the status is 200, and it is the answer's body. |
| Details.GetBadgeGameName | badges.py:59-72 | With no truthy `awardingUniverseId` the result is "Unknown Game". If the lookup answers 200 and its first game has a name, the result is that name. Any other result is "Unknown Game", which covers a raised lookup, a non-200 status, an empty list and a missing `name`. |
| Details.GameNameWithoutUniverse | badges.py:60-62 | Without a truthy universe id, the game lookup is never consulted: any two directories give "Unknown Game". |
| Comparison.ReplaceZ | badges.py:82 | A one-character string "Z" becomes "+00:00" and any other single character is kept. Together with `ReplaceZConcat` this fixes the result for every string. No "Z" remains, a string without "Z" is unchanged, and nothing gets shorter. |
| Comparison.ReplaceZConcat | badges.py:82 | The replacement distributes over concatenation. |
| Comparison.ParseCreated | badges.py:81-84 | An absent or empty `created` gives no instant and no error. Otherwise the instant is the parse of the normalised string, and a parse failure gives none. |
| Comparison.MakeSharedBadge | badges.py:86-93 | The record keeps the id. Name, description and award count default to "Unknown Badge", "No description." and 0 when their keys are absent. `created` is the parse of the normalised string, which is None when `created` is absent or empty or the parse fails. `game` is the resolved game name. |
| Comparison.CollectShared | badges.py:75-93 | The loop gives exactly one record per shared id whose detail is a non-empty record, and no id twice. Each record is the one assembled for its id. |
| Comparison.CompareBadges | badges.py:74-95 | Every output id is a key of both maps, and no id appears twice. The output ids are the shared ids with a non-empty detail. Each record is the assembled record for its id, and the output is newest first. |
| Comparison.AllSharedReported | badges.py:76-79 | The reported ids equal the whole key intersection exactly when every shared id's detail lookup gives a non-empty record. |
| Comparison.SameRecordsEachRun | badges.py:74-93 | Any two results with distinct ids, the same ids and records assembled from the same answers hold the same records. |
| Comparison.SameOrderEachRun | badges.py:74-95 | Any two results meeting `CompareBadges`' postcondition for the same answers have the same length, and at each position their badges were created at the same instant. So only badges created at the same instant can change places. |
| Comparison.OnlyFetchedSharedBadgeReported | badges.py:76-79 | With badges {1,2,3} and {2,3,4}, where only badge 2's detail succeeds, only badge 2 is reported. |
| Ordering.InsertNewestFirst | badges.py:95 | Insertion adds exactly the one record to the multiset. |
| Ordering.InsertKeepsNewestFirst | badges.py:95 | Inserting into a newest-first sequence keeps it newest first. |
| Ordering.SortNewestFirst | badges.py:95 | The sort's result is a permutation of its input, newest first, with a missing instant below every instant. |
| Ordering.NewestFirstShape | badges.py:95 | In a newest-first sequence the present instants do not increase, and all records without an instant come after those with one. |
| Ordering.NewestFirstUpToTies | badges.py:95 | Two newest-first arrangements of the same badges have the same length, and at each position their badges were created at the same instant. |
| Ordering.SortKeepsIds | badges.py:95 | Sorting keeps the set of ids, and keeps the ids distinct. |
| Ordering.InsertKeepsDistinct | badges.py:95 | Inserting a record with a new id keeps ids distinct. |
| Ordering.PyLess | badges.py:95 | Python's `<` on the sort keys raises exactly when one key is offset-aware and the other offset-naive. |
| Ordering.InsertAsWrittenSucceeds | badges.py:95 | A successful insertion, as the source writes the comparison, keeps the elements and compared keys of one awareness. |
| Ordering.SortAsWrittenSucceeds | badges.py:95 | The sort as written succeeds only when all keys are offset-aware or all are offset-naive, and then permutes its input. |
| Ordering.MissingBesideAwareRaises | badges.py:95 | Any list that holds a badge with an offset-aware instant and a badge without an instant makes the sort as written raise. |
| Ordering.InsertAsWrittenAgrees | badges.py:95 | Where no comparison raises, insertion as written equals the intended insertion. |
| Ordering.SortAsWrittenAgrees | badges.py:95 | On keys of a single awareness, the sort as written succeeds and equals the intended sort. |

## Findings

| source | as written | input that shows it | evidently intended | confidence | as-written member | corrected member |
|---|---|---|---|---|---|---|
| badges.py:95 | The sort key `x["created"] or datetime.min` compares the offset-naive `datetime.min` with the offset-aware instants that "…Z" timestamps parse to (badges.py:82), so Python raises TypeError. | Two shared badges, one with `created` "2023-01-01T00:00:00Z" and one without `created`. | Badges without a creation instant sort after all others, and the comparison completes. | high; not executed | Ordering.MissingBesideAwareRaises | Ordering.SortNewestFirst |

`Ordering.SortAsWritten` models the source's sort as an insertion sort whose comparisons may
raise. Any comparison sort must compare the two keys of a two-element list, so the input
above raises whatever algorithm Python uses. `CompareBadges` uses the corrected
`SortNewestFirst`. `SortAsWrittenAgrees` shows that the two agree wherever the source does
not raise.

## Left out

- HTTP requests, URL building and JSON decoding: every answer is an input value.
- Requests that raise in `get_user_id`, `get_all_badges` and `get_badge_info`: the
  exception leaves the pipeline uncaught. The model gives these lookups only status
  answers. Only the game lookup, whose exception the source catches, has a `Raised` answer.
- Malformed bodies: a listing page without `data`, an entry without `id`, or a user entry
  without `id` raises KeyError in the source. The model takes these keys as present.
- JSON `null` versus an absent key: a field is either absent or holds a value of its
  expected type. In the source, a `name` that is `null` would print as None instead of
  the default.
- A `created` value that is not a string: the source catches the AttributeError and
  yields None. The model types `created` as a string.
- `datetime.fromisoformat`: kept abstract as a parser to an optional instant.
- Collector.GetAllBadges: a listing that never ends makes the source loop forever. The
  method instead requires a witness `last` at which the cursor chain ends or fails, and
  says nothing about endless listings.
- Comparison.CompareBadges: on inputs where badges.py:95 raises TypeError, it returns
  the intended newest-first order instead. These are lists that hold an offset-aware
  instant together with a badge without one, or together with an offset-naive instant.
- Ordering.PyLess: `datetime.min` is taken to be strictly below every naive instant. A
  naive instant equal to it (midnight of year 1) compares equal in Python, and instants
  before year 1, which Python cannot represent, are not excluded.
- Ordering.SortNewestFirst: stability and the order of badges created at the same
  instant are not stated. In the source that order depends on set iteration order.
- `fetch_badge_icon`: image decoding over two HTTP calls.
- The Tk window, `log`, the rarity and date strings, `start_compare` and its worker thread:
  presentation and concurrency.
