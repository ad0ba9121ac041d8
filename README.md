# Floodgate play harvester — a Dafny model

Floodgate is a browser script that collects every logged play of one
BoardGameGeek game from the paginated `xmlapi2/plays` endpoint, counts the
plays by number of players, and saves its progress in IndexedDB after every
page so that a run stopped by a rate-limit error or a closed tab can resume
where it stopped. This project models the core of `Floodgate.js`: the game
record `objGame`, resume adoption of a stored unfinished record, and
`loopThroughPlays`, which folds each page into the player-count histogram,
advances the page cursor, detects the last page, fills histogram gaps, and
writes a checkpoint after every iteration.

Files:

- `options.dfy`: `Option`, used for empty histogram cells, the finish time and store lookups.
- `histogram.dfy` (module `Histogram`): the player-count array with holes, as
  `seq<Option<nat>>`. It defines folding one play (`Fold`), folding a page
  (`FoldPlays`) and gap filling (`Fill`), with lemmas about them.
- `loop.dfy` (module `Loop`): the loop stated on values. It covers the
  record, one iteration (`Step`), a whole run over a sequence of fetch
  responses (`Harvest`, which returns the final record, every checkpoint in
  order and how the run ended) and resume adoption (`Adopt`). It also holds
  the lemmas about runs.
- `floodgate.dfy` (module `Floodgate`): the imperative model.
  - `Store` stands for the IndexedDB object store. It is a map keyed by
    bggid, plus a ghost log of every put.
  - `Harvester` is `objGame`, with fields the methods update in place: the
    per-play loop, the gap-filling `for` loop, the loop body, and the
    `while (numPlays > 0)` loop.
  - `Session` is the script's top level; `ResumeAfterFailure` runs it twice,
    the second time resuming from what the first one stored.

  The `Harvester` methods' `ensures` tie the new state to the functions of
  `Histogram` (`AddPlays` to `FoldPlays`, `FillGaps` to `Fill`) and of `Loop`
  (`Resume` to `Adopt`, `ProcessPage` to `Step`, `Run` and `Session` to
  `Harvest`). `Store.Put` is stated directly as an upsert of the map keyed by
  the record's id.

Inputs that the browser supplies are parameters:

- Each fetch is one element of a `seq<Response>`: `Page(total, plays, clock)`
  or `Failure`. `clock` is the `getDate()` reading taken when the page is processed.
- The start time is a parameter of the constructor.

The stored record for the game is whatever the `Store` holds.

A finished stored record is not a stop condition: `Floodgate.js` (lines
77-81) only declines to adopt it. The run then starts again from page 1 with
an empty histogram and a new start time, and its first checkpoint overwrites
the finished record. The model follows the code (`Adopt`, `Session`).

## Model

| member | source | states |
|---|---|---|
| `Histogram.Fold` | Floodgate.js:160-164 | folding a play with n players and quantity q sets cell n to its old number (0 for a hole) plus q; no other cell changes; the array grows to length n+1 if n was past its end, with holes in between |
| `Histogram.FoldCell` | Floodgate.js:160-164 | folding a play adds its quantity to its own cell's value and to no other cell's |
| `Histogram.FoldPlays` | Floodgate.js:152-165 | the `forEach` over a page's plays, first play first: the array ends exactly long enough for the largest player count seen, or keeps its length; its per-cell effect is `FoldPlaysCell`, its untouched cells `FoldPlaysShape` |
| `Histogram.FoldPlaysCell` | Floodgate.js:152-165 | folding a page adds, to every cell, the total quantity of that page's plays with that player count |
| `Histogram.FoldPlaysShape` | Floodgate.js:152-165 | folding a page grows the array to exactly one past the largest player count seen (or keeps its length); an existing cell that no play counts into keeps its content, a hole included |
| `Histogram.Fill` | Floodgate.js:190-193 | gap filling keeps the length, turns every hole into 0, keeps every number, and leaves no hole |
| `Histogram.FillCell` | Floodgate.js:190-193 | gap filling never changes the number a cell reads as |
| `Histogram.FillIdempotent` | Floodgate.js:190-193 | filling twice equals filling once; a histogram without holes is unchanged by filling |
| `Histogram.AggregationExample` | Floodgate.js:152-165 | a page with 3 two-player plays, then a page with 4 two-player plays and 1 play with no players listed, gives counts [1, 0, 7] |
| `Loop.Fresh` | Floodgate.js:20-28 | the initial `objGame`: the given id, name and start time, page 1, no counts, no finish time |
| `Loop.Adopt` | Floodgate.js:77-81 | a stored record without a finish time supplies page, counts and start time; with no record, or a finished one, the in-memory record is kept as is; id, name and finish are never taken from the store |
| `Loop.Step` | Floodgate.js:146-195 | one loop iteration, gap fill included: the histogram ends with no hole and never shrinks; id, name and start are kept; the page advances by exactly one when numPlays stays positive (the loop goes on) and otherwise stays; a new finish time appears only on a page whose numPlays is below 1. Its full effect is `StepEffect` and `StepFailureKeeps` |
| `Loop.StepEffect` | Floodgate.js:146-193 | one iteration: on a page, numPlays = total - 100 * page, using the page before the increment; every cell gains that page's quantity for its count; the page rises by 1, or on the last page (numPlays < 1) stays and gets the finish time. On a failure numPlays = -1, and page, finish and cell values stay. Either way there is no hole, and id, name and start time are kept |
| `Loop.StepFailureKeeps` | Floodgate.js:180-193 | a failed fetch on a histogram without holes leaves the record exactly as it was |
| `Loop.Harvest` | Floodgate.js:142-196 | the `while (numPlays > 0)` loop over the responses: it writes at most one checkpoint per response, at least one when there is a response, and runs out of responses only after consuming them all. Its further properties are the `Harvest*` lemmas |
| `Loop.HarvestShape` | Floodgate.js:142-196 | a run writes one checkpoint per response consumed, and at least one if any response exists (numPlays starts at 1). The last checkpoint is the final record. Every response before the last one consumed was a successful page. The run is aborted exactly when the last one consumed failed |
| `Loop.HarvestKeeps` | Floodgate.js:142-196 | every checkpoint of a run has no holes, and every checkpoint and the final record keep the id, name and start time of the record the run began from |
| `Loop.HarvestCursor` | Floodgate.js:169-178 | the i-th checkpoint holds start page + i + 1, except the last checkpoint of a finished or aborted run, which holds start page + i. So the page never falls below its starting value |
| `Loop.HarvestFinish` | Floodgate.js:174-184 | starting unfinished, a run ends with a finish time exactly when it reached the last page. That time is the last page's clock, and no earlier checkpoint carries one |
| `Loop.HarvestCells` | Floodgate.js:144-196 | after a run every cell holds its starting value plus the quantities, for its player count, of the pages the run consumed; a failure contributes nothing |
| `Loop.HarvestCheckpointCells` | Floodgate.js:185-195 | the i-th checkpoint written holds, in every cell, its starting value plus the quantities of the first i + 1 responses consumed, so every checkpoint is a consistent point to resume from |
| `Loop.HarvestConstantTotal` | Floodgate.js:142-178 | with a constant total T, starting at page p, the run finishes after fetching pages p through max(p, ceil(T/100)), and the record keeps that last page |
| `Loop.TwoHundredFiftyPlays` | Floodgate.js:169-178 | with total 250 a fresh run fetches pages 1, 2, 3, finishes, and stores page 3 |
| `Loop.FailureOnFourthPage` | Floodgate.js:180-195 | pages 1-3 succeed and fetch 4 fails: the run is aborted with page 4, no finish time, and exactly the plays of pages 1-3 |
| `Loop.ResumeKeepsProgress` | Floodgate.js:77-81 | after adopting an unfinished stored record, the run fetches from the stored page, keeps the stored start time, and adds new plays to the stored counts |
| `Floodgate.Store.Get` | Floodgate.js:69-72 | lookup by id yields the stored record, or nothing when the id is absent; in a valid store the record found carries that id (key path `bggid`, line 48) |
| `Floodgate.Store.Put` | Floodgate.js:124 | put is an upsert keyed by the record's id, is appended to the write log, and keeps every record stored under its own id |
| `Floodgate.Harvester.constructor` | Floodgate.js:20-28 | the initial record: page 1, empty histogram, start time now, no finish time |
| `Floodgate.Harvester.Resume` | Floodgate.js:71-82 | the record becomes `Adopt` of itself and the store's record for its id |
| `Floodgate.Harvester.AddPlays` | Floodgate.js:152-165 | the per-play loop leaves the histogram equal to `FoldPlays` of the old one; page, start and finish are untouched |
| `Floodgate.Harvester.FillGaps` | Floodgate.js:190-193 | the `for` loop over the array leaves it equal to `Fill` of the old one |
| `Floodgate.Harvester.ProcessPage` | Floodgate.js:145-195 | the loop body with its literal `page++` / `page--` yields `Step` of the old record and its numPlays, then puts exactly that record into the store |
| `Floodgate.Harvester.Run` | Floodgate.js:138-196 | the `while (numPlays > 0)` loop ends in `Harvest`'s final record. The store receives exactly `Harvest`'s checkpoints, in order, and ends holding the final record under the game's id (unchanged when no response is given) |
| `Floodgate.Session` | Floodgate.js:203-210 | the script: fresh record, resume from the store, run. The outcome is `Harvest` from the adopted record; the store receives exactly its checkpoints and ends holding the final record under the game's id (unchanged when nothing was fetched). If every stored record had page ≥ 1 and no holes, that still holds afterwards, and the final record has page ≥ 1 and no holes |
| `Floodgate.ResumeAfterFailure` | Floodgate.js:74-81 | two script runs in a row, the first stopped by a failed fetch: the second adopts the record the first checkpointed, so it continues from that page with the first run's counts and keeps the first run's start time. It keeps the store property that every record has page ≥ 1 and no holes |

## Left out

- Network fetch, the 1750 ms delay and XML parsing (Floodgate.js:92-116). Each fetch is one `Response` value. An HTTP status that is not OK, and a network error, are both `Failure`.
- Harvester.Run: the run is bounded by the number of responses supplied. When they run out while numPlays is still positive, the model stops (`Interrupted`), as if the tab were closed. The code would keep fetching.
- Mid-page parse failures and `parseInt` NaN values (Floodgate.js:149, 153). In the code, a missing attribute throws after some plays of the page may already be folded; the page then is not advanced, and those plays would be counted again on resume. The model has only whole-page failures.
- Histogram.Play: quantities are natural numbers; a negative or NaN quantity is not modelled.
- IndexedDB plumbing: opening, transactions, `onupgradeneeded` and closing the connection (Floodgate.js:41-62, 199). The store is a map.
- A failed store write: the rejected promise is never handled in the code.
- Reading the bggid and the title from the page URL and `document.title` (Floodgate.js:12-17). They are constructor parameters.
- `getDate()` (Floodgate.js:32-35). Times are opaque integers supplied as inputs.
- Console logging (Floodgate.js:54, 172, 182, 200).
- Asynchronous ordering, including the unawaited `writeToIndexedDB` (Floodgate.js:194). Each checkpoint is a synchronous put of the record as it is at that moment.
