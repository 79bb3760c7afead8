# Guitar tab loader: ranker and song-change model

This project models the decision logic of `tab_fetcher.py`, a script that polls a media
player for the current song and opens the best-rated guitar tab for it in a browser. Two
parts carry real logic, and both are modelled as pure functions with proved properties:

- **The best-result ranker** (`best_rated_result` and `no_results_page`). A search results
  page is abstracted to a "nothing found" flag plus the rows of its results table. Each row
  has an optional rating (stars and votes) and the targets of its `song` links. The ranker
  skips the heading row. It gives unrated rows a rating of 2.5 with 0 votes. It keeps the
  row whose (rating, votes) is lexicographically strictly greater than the best so far,
  starting from (0, 0). From the chosen row it takes the second link when there are two or
  more, otherwise the first.
- **Song-change detection** (`new_song_played` plus the `curr_song` update in
  `fetch_tabs_for_itunes`), as a step function from the remembered song name and the
  player's current track to the next remembered name and an action.

Files:

- `scores.dfy`, module `Scores`: a result's standing and the lexicographic comparison.
- `ranker.dfy`, module `Ranker`: rows, pages, the ranking walk, and a reference
  description of the row it must choose.
- `poller.dfy`, module `Poller`: the poll step and runs of polls.

Ratings are reals, so the 2.5 sentinel is exact and no floating-point arithmetic is
involved. An explicit rating is a whole number of stars, because the source parses it
with `int`. The ranker's reference description has two parts. A row is a *record* when it
beats (0, 0) and every earlier row. The *winner* is the record that no later row beats.
`ScanInvariant` proves that the walk agrees with this description.

Some details of the code that the model keeps:

- A row may carry any number of `song` links. The code takes the second link when there
  are two or more, and the only link otherwise.
- The code reads an explicit rating as one digit, 0..9. The model allows any integer
  star count, a superset of those values.
- An empty current track name dispatches on every poll (`EmptyNameAlwaysDispatches`).

The chosen row's link is read by index. A row with no `song` link therefore fails with an
index error at the moment it takes the lead, even if a later row overtakes it. The model
keeps this as an error result, `Err(MissingSongLink)`, instead of excluding such rows by a
precondition. `RankedResult` says exactly when the error occurs.
`EmptyExactlyWhenNothingBeatsBaseline` gives the error-free statement for pages whose rows
all carry non-empty links.

## Model

| member | source | states |
|---|---|---|
| Scores.BeatsIsStrictTotalOrder | tab_fetcher.py:68 | The comparison "higher rating, or equal rating and more votes" is irreflexive, asymmetric and transitive, and any two different (rating, votes) pairs are comparable. |
| Ranker.BestRatedResult | tab_fetcher.py:44-56 | A "nothing found" page yields "" whatever rows it carries. So does a table holding at most its heading row. |
| Ranker.HeaderIgnored | tab_fetcher.py:56 | A table made of any heading row followed by `data` ranks exactly as `data` alone. |
| Ranker.ScanInvariant | tab_fetcher.py:53-73 | The walk fails exactly when some record row has no link. Otherwise it ends at (0, 0) with link "" when no row beats (0, 0). When some row does, it ends at the winner's (rating, votes) and the winner's link. |
| Ranker.RankedResult | tab_fetcher.py:53-74 | The ranker errs exactly when a record row has no link. It returns "" when no row beats (0, 0). Otherwise it returns the winner's link: the only link of a one-link row, or the second link of a row with two or more. |
| Ranker.WinnerIsFirstMaximum | tab_fetcher.py:66-70 | A row is the winner exactly when its (rating, votes) beats (0, 0), no row beats it, and no earlier row has an equal pair. So the winner is the earliest lexicographic maximum. |
| Ranker.WinnerExists | tab_fetcher.py:53-55 | A winner exists exactly when some row's (rating, votes) is greater than (0, 0). |
| Ranker.EmptyExactlyWhenNothingBeatsBaseline | tab_fetcher.py:53-74 | When every row has non-empty links, ranking succeeds. Its result is "" exactly when no row's (rating, votes) is greater than (0, 0). |
| Ranker.AppendDominatedRow | tab_fetcher.py:66-73 | Appending a row never changes the result when that row does not beat (0, 0) or when some earlier row has an equal or greater (rating, votes). This holds even when the row has no link. |
| Ranker.AppendLeadingRow | tab_fetcher.py:66-73 | Suppose ranking the earlier rows succeeds, and an appended row beats (0, 0) and every earlier row. Then that row's link is returned when it has one, and ranking fails with the missing-link error when it has none. |
| Ranker.UnratedRanksAsAverage | tab_fetcher.py:58-68 | An unrated row beats (0, 0). It beats a rated row exactly when that row has at most 2 stars, and loses exactly when it has 3 or more. It never beats another unrated row. |
| Ranker.AllUnratedPicksFirst | tab_fetcher.py:58-61 | When no data row is rated, the first data row's link is returned. |
| Ranker.TwoRowsOrderIrrelevant | tab_fetcher.py:66-70 | For two linked rows where one's pair is greater and beats (0, 0), that row's link is returned in either order. |
| Ranker.TieKeepsEarlier | tab_fetcher.py:68 | For two linked rows with equal pairs above (0, 0), the first row's link is returned. |
| Poller.Poll | tab_fetcher.py:76-80 | After any poll the remembered name is the current track's name. The poll waits exactly when the remembered name is non-empty and equal to the current one. Otherwise it dispatches the current track. A wait leaves the state unchanged. |
| Poller.FirstPollDispatches | tab_fetcher.py:104-110 | From the initial empty memory, the first poll dispatches the current track and remembers its name. |
| Poller.RepeatedPollWaits | tab_fetcher.py:79-80 | Polling again while a track with a non-empty name keeps playing waits and changes nothing. |
| Poller.EmptyNameAlwaysDispatches | tab_fetcher.py:79 | A track with an empty name is dispatched on every poll, the repeat included. |
| Poller.ArtistIgnored | tab_fetcher.py:78-79 | Only the name is compared. Two tracks with the same name give the same next state and the same wait-or-dispatch decision. |
| Poller.RunDispatchesAtChanges | tab_fetcher.py:104-110 | Over a sequence of polls, track `i` is dispatched exactly when its name is empty or differs from the name polled before it. For the first poll, the comparison is with the starting memory. The run ends remembering the last name polled. |

## Left out

- `tab_searchpage` (HTTP fetching, query-string building and the retry without the
  artist filter) is network I/O. The page it returns is an input here.
- HTML parsing is abstracted to the `Row` record: the star count read from a CSS class
  name, the vote count read from a `<b>` tag, and the `href` of each `song` anchor. Parse
  failures are not modelled: a missing results table, a missing vote tag, a non-numeric
  class character, or a link without `href`.
- Player and browser automation are foreign calls: reading the track, opening windows,
  setting the tab URL, and `display_new_tab` with its page-loading poll.
- The one-second and two-second sleeps and the endless `while True` loop are timing
  only. A poll that finds no change is modelled as `Wait`.
- Recovery by `CommandError` is exception handling around foreign calls. This covers the
  player not running and the closed window recreated and retried once.
- Poller.Poll: the track name is read twice, once to detect the change and once to
  remember it. The model assumes both reads return the same track; a change between
  them depends on external state.
