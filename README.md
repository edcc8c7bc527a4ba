# Court schedule reconstruction, modelled in Dafny

The server answers `GET /proxy?facility_id=…&court_id=…&reservationDate=…`
(the date defaults to today in America/New_York) by scraping the day's
booking table of a court and replying with `{ reservations }`.
Each reservation is a `{ startTime, endTime, status }` entry. Two
facilities are served: 2103, the Pavilion, and 2027, the Sport Court. This
project models how the handler turns the scraped table into that list,
for both facilities. It also models the three helpers the handler relies
on: `isValidTime`, `cleanStatus` and `normalizeStatus`.

The pipeline, for each facility:

1. **Admission.** Each table row gives a time cell and a status cell,
   both trimmed. A row is kept only when its time text is a time label.
   An empty status becomes the label itself.
2. **Filtering.** Placeholder rows are dropped. A placeholder is a row
   whose status equals its own label. For 2027, rows whose raw status is
   on its ignore list are dropped too.
3. **Merge.** Each maximal run of neighbouring rows whose statuses
   normalise to the same key becomes one entry. The entry keeps the first
   row's label and status. It ends at the label of the row after the run,
   or at its own label for the last run.
4. **End-time adjustment.** Every entry but the last ends where the next
   one starts.
5. **Cleaning.** Statuses are cleaned. For 2103, entries whose cleaned
   status is empty or on its ignore list are dropped.
6. **Fallback.** A last entry with no end, or ending where it starts, is
   given the closing time `9:00PM`.

Modules:

- `Strings`: JavaScript's white space, `trim` and ASCII `toLowerCase`.
- `TimeLabels`: the time-label grammar, `isValidTime`, and reading a label
  off the front of a text.
- `Status`: `cleanStatus` and `normalizeStatus`. This covers the anchored
  range pattern `T\s*-\s*T` and the global, case-insensitive removal of
  `Member Event`.
- `Rows`: steps 1 and 2.
- `Runs`: step 3, both as functions and as the two nested `while` loops.
- `Proxy`: steps 4 to 6, the `for` loop and the fallback in place on
  arrays, and the whole pipeline as a method.
- `ScheduleFacts`: what the reply is guaranteed to satisfy, over all
  tables.

The merge, adjustment and clean steps are stated over any key function and
any cleaner. They are then applied to `normalizeStatus` and `cleanStatus`.

## Model

| member | source | states |
|---|---|---|
| TimeLabels.IsValidTime | server.js:198-200 | `isValidTime`: the whole text is exactly one label read off its front; `IsValidTimeIff` states which texts those are |
| TimeLabels.IsValidTimeIff | server.js:198-200 | `isValidTime` holds exactly of the texts that are some well-formed label written out: hour 1-12, an optional `0` before hours 1-9, minutes 00-59, `AM`/`PM` in any case, and nothing else |
| TimeLabels.ParsePrefixSound | server.js:205 | a label read off the front of a text is well formed and is literally the text's first characters |
| TimeLabels.ParsePrefixRender | server.js:205 | any well-formed label written at the front of any text is read back as that label |
| TimeLabels.ParsePrefixOf | server.js:205 | a label is read from any text whose first characters are that label |
| TimeLabels.ClosingTimeIsValid | server.js:97 | the fallback's closing time `9:00PM` is itself a valid label |
| Strings.Trim | server.js:43-44 | the trimmed text neither starts nor ends with white space and is no longer than the input |
| Strings.TrimSound | server.js:210 | `trim` keeps a contiguous middle of the text and cuts only white space on either side |
| Strings.TrimPadded | server.js:210 | trimming a trimmed text padded with white space gives back exactly that text |
| Strings.Lower | server.js:214 | lower-casing keeps the length and leaves no upper-case ASCII letter |
| Strings.LowerEqualIff | server.js:214 | two texts lower-case to the same text exactly when they agree ignoring letter case |
| Status.SkipSpaces | server.js:205 | the greedy `\s*` stops at the first character that is not white space, having passed only white space |
| Status.MatchRange | server.js:204-207 | a recognised leading range never covers more than the status |
| Status.MatchRangeSound | server.js:205 | whatever the range pattern matches is a well-formed range written at the very start of the status |
| Status.MatchRangeText | server.js:205 | every well-formed range at the start of a status is matched exactly, whatever follows it |
| Status.StripLeadingRange | server.js:204-207 | the first replacement leaves a suffix of the status |
| Status.StripRangeText | server.js:204-207 | a leading range is cut and everything after it is kept unchanged |
| Status.StripWithoutRange | server.js:204-207 | a status that does not begin with a range is left unchanged |
| Status.RemoveMemberEvent | server.js:209 | removing the phrase never lengthens the status |
| Status.RemoveMemberEventLength | server.js:209 | exactly twelve characters go per match found, and nothing else goes |
| Status.RemoveMemberEventKeepsCharacters | server.js:209 | removal only deletes characters: it never invents any |
| Status.RemoveMemberEventWithoutPhrase | server.js:209 | with no occurrence of the phrase, in any letter case, the status is unchanged |
| Status.SpaceIsNotPhrase | server.js:209 | a text starting with white space does not start with the phrase |
| Status.RemoveAfterSpaces | server.js:209 | white space in front is kept and the removal carries on after it |
| Status.RemovePhrase | server.js:209 | a phrase at the front is dropped and the scan resumes right after it |
| Status.RemoveSpacedPhrase | server.js:209 | a phrase between white space is removed and the white space stays |
| Status.CleanStatus | server.js:202-211 | the cleaned status is trimmed and no longer than the raw one |
| Status.CleanStatusUnchanged | server.js:202-211 | a trimmed status with no leading range and no phrase is returned unchanged |
| Status.CleanRangedMemberEvent | server.js:202-211 | `<range> Member Event <name>` is cleaned to exactly `<name>` |
| Status.CleanSpacedMemberEvent | server.js:209-210 | after the range, the phrase and the white space around it go and the name stays |
| Status.TrimAfterGaps | server.js:210 | white space left in front of a trimmed name is trimmed away |
| Status.NormalizeStatus | server.js:213-215 | `normalizeStatus` is `Lower(CleanStatus(s))` by definition, the lower-cased cleaned status; `SameKeyIff` states when two keys agree |
| Status.SameKeyIff | server.js:213-215 | two statuses get the same key exactly when their cleaned texts agree ignoring letter case |
| Rows.AdmitCells | server.js:43-47 | a row is admitted exactly when its trimmed time text is a label; its start is that label, its status is the trimmed status text when that is not empty and is never empty, and it is a placeholder exactly when the trimmed status is empty or equals the label |
| Rows.Admitted | server.js:41-48 | the raw list is no longer than the table |
| Rows.AdmittedAreLabelled | server.js:41-48 | every row of the raw list has a valid label and a non-empty status |
| Rows.AdmittedInOrder | server.js:41-48 | the raw list holds, in table order, one row per table row that is admitted and no other: a table row contributes exactly when its cells are admitted, and then contributes the admitted row |
| Rows.ChooseInOrder | server.js:41-48 | keeping what a partial function gives, in order, keeps exactly the elements it is defined on, once each, in order |
| Rows.FilterInOrder | server.js:51 | `filter` keeps exactly the elements that pass the test, once each and in order, and nothing else |
| Rows.AdmitRows | server.js:41-48 | the `each` loop builds exactly the admitted rows, in table order |
| Rows.Candidates | server.js:138-141 | the filter's result is no longer than the raw list |
| Rows.CandidatesInOrder | server.js:138-141 | the filter keeps, in table order, exactly the raw rows that are not placeholders and whose raw status is not ignored: a raw row is picked exactly when it qualifies |
| Runs.RunEnd | server.js:59-64 | the inner scan passes only rows that share the run's key and stops at the first row that does not, or at the end |
| Runs.ScanRun | server.js:58-64 | the inner `while` loop stops where the run ends |
| Runs.MergeFrom | server.js:54-68 | the merge gives at most one entry per row, and none exactly when no rows are left |
| Runs.MergeRuns | server.js:54-68 | the outer `while` loop builds exactly the merged list |
| Runs.MergeFromIsRunCover | server.js:54-68 | the merge splits the rows into maximal runs, one after another |
| Runs.MergeIsRunCover | server.js:54-68 | the merged list splits all rows into maximal runs; each entry is its run's first row, ending at the next run's label |
| Runs.RunCoverUnique | server.js:54-68 | there is only one way to split rows into maximal runs |
| Runs.MergeIsTheRunCover | server.js:144-158 | any split of the rows into maximal runs is the merge |
| Runs.CoverNeighboursDiffer | server.js:59-62 | in a split into maximal runs, neighbouring entries never share a key |
| Runs.MergeNeighboursDiffer | server.js:59-62 | neighbouring merged entries never share a key |
| Runs.CoverEnds | server.js:65 | in a split into maximal runs, each entry ends where the next starts and the last ends where it starts |
| Runs.MergeEnds | server.js:65 | each merged entry ends where the next starts; the last one ends where it starts |
| Runs.CoverInOrder | server.js:56-67 | the entries of a split are the runs' first rows, at increasing indices |
| Runs.MergeInOrder | server.js:56-67 | the merged entries are the runs' first rows, in row order |
| Runs.CoverRunAt | server.js:54-68 | entry `j` of a split into maximal runs is the run from `starts[j]` to the next start (or the end), beginning at that row and ending at the next run's label |
| Runs.MergeRunAt | server.js:54-68 | merged entry `j` is the maximal run from the `j`-th run start to the next one, with its first row's label and status and the next run's label as its end |
| Runs.CoverStartIff | server.js:54-68 | in a split into maximal runs, a run starts at a row exactly when it is the first row or its key differs from the row before |
| Runs.MergeStartIff | server.js:54-68 | the merge starts a run at a row exactly when it is the first row or its key differs from the row before |
| Runs.MergeSingle | server.js:65 | a single row becomes one entry that ends where it starts |
| Proxy.Shift | server.js:71-73 | the adjustment keeps every start and status, chains each entry to the next, and leaves the last entry as it was |
| Proxy.ShiftEndTimes | server.js:71-73 | the `for` loop, done in place on the array, performs that adjustment |
| Proxy.ShiftOfMergeIsIdentity | server.js:161-163 | after the merge, the adjustment loop changes nothing |
| Proxy.ShiftedMergeFacts | server.js:54-73 | after the adjustment the entries are still the runs' first rows, in order, and the last one ends where it starts |
| Proxy.ShiftedMergeLabels | server.js:45-73 | if every row's label has a property, every start and end after the adjustment has it too |
| Proxy.CleanEntries | server.js:85-90 | the clean `map` gives one entry per entry, with the same start and end and the cleaned status |
| Proxy.KeepReservations | server.js:91 | the result is no longer than the input |
| Proxy.KeepInOrder | server.js:91 | the filter keeps, in order, exactly the entries whose status is non-empty and not ignored: an entry is picked exactly when it qualifies |
| Proxy.CleanAndFilter | server.js:85-91 | the clean and filter step never lengthens the list, and for 2027, which has no filter, keeps its length |
| Proxy.WithFallback | server.js:94-99 | only the last entry may change: when it has no end or ends where it starts, its end becomes `9:00PM`, and otherwise it is unchanged; afterwards it has an end, which equals its start exactly when it starts at `9:00PM` and had been open-ended |
| Proxy.ApplyFallback | server.js:174-179 | the fallback, done in place on the array, performs that change |
| Proxy.MergedEntries | server.js:41-73 | admission, filtering, merge and adjustment, done step by step, give the adjusted merged entries |
| Proxy.Reconstruct | server.js:41-99 | the handler's pipeline, done step by step, gives the reply's `reservations` |
| Proxy.Reservations | server.js:41-102 | the reply has at most one reservation per row that reaches the merge, and so at most one per table row |
| ScheduleFacts.FinishKeepsLabels | server.js:85-99 | cleaning, filtering and the fallback keep every start and end a label |
| ScheduleFacts.FallbackPicks | server.js:94-99 | after the fallback, entries that kept their sources' start and end still do, except that an open-ended last one ends at `9:00PM` |
| ScheduleFacts.PavilionPicks | server.js:85-99 | for 2103, the reply entries are picked in order from the adjusted ones, and an adjusted entry is picked exactly when its cleaned status is non-empty and not ignored |
| ScheduleFacts.SportCourtPicks | server.js:85-99 | for 2027, every adjusted entry is picked, in order, with its cleaned status and its end (`9:00PM` for an open-ended last one) |
| ScheduleFacts.FinishPicks | server.js:85-99 | after cleaning, filtering and the fallback, the entries are picked in order from the adjusted ones: each has the same start and end and a cleaned status, except that the last ends at `9:00PM` when it was open-ended; and an adjusted entry is picked exactly when it survives (always for 2027; for 2103 when its cleaned status is non-empty and not ignored) |
| ScheduleFacts.FinishPavilion | server.js:85-91 | after the 2103 steps, no entry has an empty or ignored status |
| ScheduleFacts.FinishSportCourt | server.js:166-179 | the 2027 steps keep every entry, keep the chaining, end the last entry at `9:00PM` and clean every status |
| ScheduleFacts.PicksOfChained | server.js:71-99 | picking out of chained entries whose last ends where it starts: each pick but the last ends where the entry after its source starts, and a pick of the last entry ends at `9:00PM` |
| ScheduleFacts.FinishChained | server.js:71-99 | cleaning, filtering and the fallback applied to chained entries pick exactly the surviving ones, ending each pick but the last where the entry after its source starts, and a pick of the last entry at `9:00PM` |
| ScheduleFacts.ComposePicks | server.js:41-99 | entries picked from the runs' first rows, which were picked from the table, are picked in order from the table, each from the row that opens its run |
| ScheduleFacts.RunInRawAt | server.js:41-68 | merged entry `j` starts at the label of the table row that opens its run and ends at the label of the first later candidate row with another key, or at its own label when there is none |
| ScheduleFacts.PickEnd | server.js:94-99 | a picked entry whose source spans a run of the table ends at that run's closing label, or at `9:00PM` when it is the last entry and that leaves it open-ended |
| ScheduleFacts.TraceEnds | server.js:41-99 | each entry picked from the merge ends where the table run its first row opens is closed, with the fallback on the last |
| ScheduleFacts.NearestCandidate | server.js:51 | the nearest candidate row before the `r`-th candidate is the `(r-1)`-th |
| ScheduleFacts.PreviousIsNearest | server.js:51 | no candidate row lies between the `(r-1)`-th and the `r`-th candidates |
| ScheduleFacts.OpenerIff | server.js:54-68 | a candidate row opens a run in the table exactly when the merge starts a run at its position among the candidates |
| ScheduleFacts.PickedOpeners | server.js:54-99 | the rows that yield reply entries are exactly the candidate rows that open a run and whose status survives |
| ScheduleFacts.TraceReply | server.js:41-99 | entries picked, exactly the surviving ones, out of the merge of the candidate rows trace back to the table in order, with their labels, statuses and ends |
| ScheduleFacts.FinishSingle | server.js:94-99 | a single open-ended entry that survives the filter ends at `9:00PM` |
| ScheduleFacts.CandidateRowsFacts | server.js:123-141 | every row that reaches the merge has a valid label, is not a placeholder and its raw status is not ignored |
| ScheduleFacts.MergedEntriesAreCandidates | server.js:138-158 | no merged entry's status equals its start or is on the raw ignore list |
| ScheduleFacts.ReservationsAreLabelled | server.js:41-99 | every reservation starts and ends at a valid label |
| ScheduleFacts.PavilionHasOnlyReservations | server.js:76-91 | no 2103 reservation has an empty or ignored status |
| ScheduleFacts.SportCourtIsContiguous | server.js:160-179 | the 2027 reservations are chained end to start, and the last ends at `9:00PM` |
| ScheduleFacts.FoldedNeighboursDiffer | server.js:143-171 | when the key is a case folding of the cleaned status, neighbouring 2027 entries differ under that folding |
| ScheduleFacts.SportCourtNeighboursDiffer | server.js:143-171 | no two neighbouring 2027 reservations have the same status up to letter case |
| ScheduleFacts.ReservationsTrace | server.js:41-99 | the reply traces back to the admitted rows in table order: each reservation comes from a non-placeholder, non-ignored row, keeps its label and cleaned status, and ends at the label of the first later candidate row with another key (or at the row's own label when there is none), or at `9:00PM` when it is the last and that leaves it open-ended; and a row yields a reservation exactly when it opens a run (the nearest candidate before it has another key) and its status survives |
| ScheduleFacts.ShiftedIsChained | server.js:54-73 | the adjusted entries are chained end to start, and the last ends where it starts |
| ScheduleFacts.ReservationsFromShifted | server.js:71-99 | the reply picks, in order, exactly the adjusted entries that survive; one that is not the last ends where the next adjusted entry starts, even when the 2103 filter dropped that entry; the last ends at `9:00PM` when open-ended, which it always is when it comes from the last adjusted entry |
| ScheduleFacts.SingleReservation | server.js:41-99 | when exactly one row reaches the merge, and for 2103 its cleaned status is a reservation, the reply is that one reservation ending at `9:00PM` |
| ScheduleFacts.EmptyReservations | server.js:94-99 | when no row reaches the merge, the reply is empty; for 2027 the converse holds too |

## Left out

- The Express app is not modelled: CORS, the route, the query parameters, the URL that is built, and the 400 and 500 replies. The facility is a parameter of the model.
- Fetching the page (axios) and walking the HTML (cheerio) are not modelled. The table is given as each row's time-cell text and second-cell text. What `.text()` returns for a missing cell is not modelled either.
- `dayjs` and the console output are not modelled.
- Strings.Lower: folds only the ASCII letters. JavaScript's `toLowerCase` also folds other letters, and a few of them change the length.
- Strings.IsSpace: covers the white space of `trim` and `\s` from the ASCII range and the Unicode spaces listed in the ECMAScript standard. Anything else is treated as text.
- No general regular-expression engine is modelled. The three patterns are modelled directly.
  - The time-label pattern and the range pattern each have at most one match. Both are anchored at the start. At most one hour alternative can be followed by `:`. And `-` is not white space, so each `\s*` stops at a fixed place.
  - The global `Member Event` replacement is modelled as a left-to-right scan that resumes after each match, with ASCII case folding.
- Status.CleanStatus: its contract is stated for the cases above (no range and no phrase, or a range followed by the phrase and a name). It is not a full characterisation of every status.
- Merging is not claimed to be idempotent, and no such lemma is given: the code never merges twice.
- Nothing about time order is claimed. Labels are compared only as text, as the code does. The reply is in table order, and an entry's end may come before its start.
- A last reservation that starts at `9:00PM` and is open-ended ends at `9:00PM`. So "every entry ends after it starts" does not hold, and `Proxy.WithFallback` states exactly when the end equals the start.
- The 2103 reply is not claimed to be contiguous. Its filter runs after the end-time adjustment, so dropping an entry leaves a gap: the entry before it still ends where the dropped one starts (`ScheduleFacts.ReservationsFromShifted`). The 2027 reply is contiguous (`ScheduleFacts.SportCourtIsContiguous`).
- The 2027 branch has no filter after cleaning. A raw status that cleans to an empty text stays in its reply, as the code does.
- There is no separate activity-splitting step in the handler. Only the steps listed above are modelled.
