# SURF cage tracker: order/cage engine

A model of the order/cage engine inside the `App` component of the SURF
React app. Warehouse staff use the app to park orders in numbered cages.

The engine keeps three kinds of state:

- the **ledger** (`items`): records `{id, cage, timestamp, status}`, kept newest first;
- the **cage registry** (`availableCages`): seeded from 19 default names;
- the **cage selections** of the add form, the bulk-add form and the rename form.

It derives two views from that state: the per-cage live counts shown on the
cage tiles, and the inclusive date-range filter behind the table and the
export.

The Dafny modules follow that structure:

- `Text`: JavaScript's `String.prototype.trim` and the decimal rendering of
  numbers in template literals. The first is used on every typed id and name;
  the second builds the synthetic bulk ids.
- `Ledger`: the `Item` record and `Status`, plus the pure list transformations
  the handlers apply. These are the duplicate-id lookup, the live count per
  cage, the delete filter, the retire map, the rename cascade and the bulk
  batch, with lemmas about counts, order and ids.
- `Sorting`: the stable newest-first sort the add handlers run, written two
  ways. `SortDesc` is a function (a stable insertion sort). `SortNewestFirst`
  is an in-place insertion sort on an `array`, proved equal to it.
- `Registry`: the default list, the registry invariant (distinct, trimmed,
  non-empty names), the rename map and the selection fallback.
- `Views`: `filteredItems` as a function, and `cageCounts` as a loop over the
  ledger that fills a map.
- `Engine`: the class `Tracker`. Its fields are the ledger, the registry and
  the three selections. It has one method per handler. Each handler either
  fails with an `Error` kind and changes nothing, or applies its update and
  keeps `Valid()`. `Valid()` says three things: the ledger is newest first;
  the registry is well formed and non-empty; every selection is registered.

Timestamps are integers (milliseconds since the epoch). Calendar days are
numbered from the epoch in UTC, so day `d` runs from `d * 86400000` to the
millisecond before day `d + 1`. Clock readings (`new Date()`, `Date.now()`)
are parameters of the handlers that read the clock.

Four behaviours of the code worth knowing:

- an order id is refused when any record already carries it, whatever that record's status;
- deleting a key that matches no record succeeds and changes nothing;
- `cageCounts` also has keys for unregistered cage names that records still occupy;
- a rename does not check that the old name is registered.

## Model

The reference definitions the lemmas below are stated over are
`Ledger.HasId` (the duplicate-id lookup, src/App.tsx:111-112),
`Ledger.CountInCage` (the live count of one cage, src/App.tsx:141-146),
`Ledger.BulkId` (the bulk-id template, src/App.tsx:225), `Sorting.SortDesc`
(the stable newest-first sort, src/App.tsx:130 and 236), `Registry.Revalidate`
(the fallback of one selection, src/App.tsx:92-100) and `Views.StartOfDay`
(midnight of a day, src/App.tsx:159-160).

| member | source | states |
|---|---|---|
| Engine.Tracker.constructor | src/App.tsx:21-29 | Initial state: an empty ledger, the default registry, and every selection on the first default cage. The invariant holds. |
| Engine.Tracker.SelectCage | src/App.tsx:469-476 | The add form's drop-down only offers registered names. Choosing one keeps the invariant. |
| Engine.Tracker.SelectTargetCage | src/App.tsx:633-640 | The same for the bulk-add form's target cage. |
| Engine.Tracker.SelectCageToRename | src/App.tsx:527-534 | The same for the rename form's cage. |
| Engine.Tracker.AddOrder | src/App.tsx:104-134 | A blank trimmed id fails with EmptyOrderId. An id carried by any record fails with DuplicateOrder. In both cases the ledger is unchanged. Otherwise the ledger is the old one with one new record inserted: trimmed id, selected cage, the clock reading, 'In Cage'. It goes right after the records strictly newer than it. The ledger stays newest first. |
| Engine.Tracker.InsertRecord | src/App.tsx:126-131 | Prepending a record and re-sorting places it after exactly the strictly newer records. The ledger stays newest first. The record's cage gains one in the count and every other cage keeps its count. |
| Engine.SortedCopy | src/App.tsx:127-131 | Sorting the fresh array in place gives exactly `SortDesc` of its contents. |
| Engine.NewBulkItems | src/App.tsx:222-232 | The `for`/`push` loop builds exactly the batch `BulkBatch` describes. |
| Engine.Tracker.BulkAdd | src/App.tsx:214-241 | A count that is not positive fails with InvalidCount and leaves the ledger unchanged. Otherwise the ledger is the stable newest-first sort of batch ++ old ledger, a permutation of both together. The target cage's count grows by exactly the count and every other cage's count is unchanged. |
| Engine.Tracker.ResetAllData | src/App.tsx:243-258 | An empty ledger fails with NothingToReset. Otherwise the ledger becomes empty. |
| Engine.Tracker.ResetSingleCage | src/App.tsx:260-289 | No cage chosen (null or "") fails with NoCageSelected. A cage no record occupies fails with NothingInCage. Both failures leave the ledger unchanged. Otherwise exactly the occupying records become 'Completed', the cage's count drops to 0 (so an immediate second call fails) and every other count is unchanged. |
| Engine.Tracker.DeleteItem | src/App.tsx:291-304 | No record chosen fails with NoItemSelected. Otherwise the ledger is the delete filter of the chosen (id, timestamp) key, and an absent key is a silent no-op. Order is kept. |
| Engine.Tracker.AddNewCage | src/App.tsx:306-319 | A blank trimmed name fails with EmptyCageName. A registered name fails with DuplicateCage. Otherwise the trimmed name is appended at the end. The registry stays duplicate-free and trimmed. |
| Engine.Tracker.ResetCagesToDefault | src/App.tsx:322-333 | The registry becomes the default list and every selection its first name. The ledger is not in the frame, so it is untouched. |
| Engine.Tracker.RevalidateSelections | src/App.tsx:91-101 | Each selection becomes its fallback under the current registry. |
| Engine.Tracker.Relocate | src/App.tsx:352-365 | The commit step of a rename. The registry and the records move from the old name to the new one, the rename form follows the new name, then the other selections are re-validated. |
| Engine.Tracker.RenameCage | src/App.tsx:335-368 | The outcome is exactly one of RenameNameMissing, RenameUnchanged, RenameNameTaken or Done, tested in the source's order. A failure changes nothing. On success the registry is renamed in place, every record in the old cage moves to the new one, and the rename form holds the new name. The invariant holds afterwards. |
| Engine.AppendKeepsConsistent | src/App.tsx:306-319 | Appending a fresh cage name keeps the tracker invariant. |
| Engine.RenameKeepsConsistent | src/App.tsx:352-365 | A rename onto a fresh name, with the selections re-validated, keeps the tracker invariant. |
| Ledger.Keep | src/App.tsx:299 | `filter`: the result keeps exactly the elements satisfying the predicate, with their multiplicities, as an order-preserving subsequence. It is the identity when every element passes. |
| Ledger.KeepSorted | src/App.tsx:299 | Filtering keeps a newest-first list newest first. |
| Ledger.CountRange | src/App.tsx:142-146 | A cage's count is at most the ledger's length, and is 0 exactly when no record occupies the cage. |
| Ledger.CountSnoc | src/App.tsx:142-146 | One more record counts once for the cage it occupies and not at all for any other. |
| Ledger.CountInsert | src/App.tsx:126-131 | Inserting one record anywhere adds one to its cage's count and changes no other cage's count. |
| Ledger.CountAllOccupy | src/App.tsx:226-231 | A list whose every record occupies `c` counts every record for `c`. |
| Ledger.CountPermutation | src/App.tsx:236 | Counts depend only on the multiset of records, so re-sorting never changes them. |
| Ledger.DeleteRecord | src/App.tsx:299 | No record with the key survives. Every other record keeps its multiplicity. The result is a subsequence of the input, and an absent key leaves the list as it was. |
| Ledger.RetireCage | src/App.tsx:277-283 | Same length. Each record keeps its id, cage and timestamp. Its status becomes 'Completed' exactly when it occupied the cage. |
| Ledger.CountAfterRetire | src/App.tsx:260-289 | After retiring `c`, no record occupies `c` and every other cage keeps its count. |
| Ledger.RetireKeepsOrder | src/App.tsx:277-283 | Retiring keeps the ledger newest first. |
| Ledger.RenameItems | src/App.tsx:358-362 | Same length. Only the cage field of records in the old cage changes, to the new name. Afterwards no record points at the old name. |
| Ledger.CountAfterRename | src/App.tsx:358-362 | After the cascade the old name counts 0, the new name counts what both names held, and every other cage is unchanged. |
| Ledger.RenameKeepsOrder | src/App.tsx:358-362 | The cascade keeps the ledger newest first. |
| Ledger.BulkIdsDistinct | src/App.tsx:225 | Two `Bulk-…` ids with different index suffixes differ, whatever the clock read. |
| Ledger.BulkBatch | src/App.tsx:223-232 | A batch has one record per clock reading. |
| Ledger.BulkBatchDistinct | src/App.tsx:223-232 | Every record of a batch occupies the target cage, and the ids are pairwise distinct. |
| Sorting.InsertDescPermutes | src/App.tsx:130 | One insertion step adds the record and loses nothing. |
| Sorting.InsertDescSorted | src/App.tsx:130 | One insertion step keeps a newest-first list newest first. |
| Sorting.SortDescPermutes | src/App.tsx:130 | The sort is a permutation of its input. |
| Sorting.SortDescSorted | src/App.tsx:130 | The sort's output is newest first. |
| Sorting.SortDescOfSorted | src/App.tsx:236 | An already newest-first list comes out of the sort unchanged. |
| Sorting.NewerCount | src/App.tsx:130 | The records before the split are strictly newer than the instant. In a sorted list, the ones after it are not. |
| Sorting.SortDescPrepend | src/App.tsx:127-130 | Sorting `[x] ++ ledger` for a sorted ledger places `x` right after the strictly newer records, ahead of records with an equal timestamp, as a stable sort does. |
| Sorting.ShiftOlder | src/App.tsx:130 | The inner loop shifts exactly the trailing records strictly older than `x` one place up and returns the gap where `x` belongs. |
| Sorting.SinkInto | src/App.tsx:130 | One in-place insertion step computes `InsertDesc` on the sorted prefix and leaves the rest of the array alone. |
| Sorting.SortNewestFirst | src/App.tsx:130 | The in-place sort leaves exactly `SortDesc` of the array's old contents. |
| Registry.DefaultsWellFormed | src/App.tsx:11-16 | The 19 default names are distinct, trimmed and non-empty. |
| Registry.AppendKeepsWellFormed | src/App.tsx:316 | Appending a fresh, trimmed, non-empty name keeps the registry well formed. |
| Registry.RenameCage | src/App.tsx:352-355 | The rename map: same length, and each position keeps its name unless it held the old one. |
| Registry.RenameMembership | src/App.tsx:352-355 | After the map the old name is gone (when it differs from the new one). The new name is registered exactly when the old or the new one was. |
| Registry.RenameKeepsWellFormed | src/App.tsx:335-355 | Renaming a registered cage to a fresh, trimmed, non-empty name keeps the registry duplicate-free, and the new name is registered. |
| Registry.RenameRoundTrip | src/App.tsx:352-355 | Renaming onto a fresh name and back restores the registry. |
| Registry.RevalidateLands | src/App.tsx:91-101 | A registered selection is kept. Otherwise the fallback is registered whenever any name is, and "" only when none is. |
| Views.EndOfDay | src/App.tsx:166-168 | 23:59:59.999 of a day lies within that day, before the next one starts. |
| Views.AfterStart | src/App.tsx:155-164 | The start filter keeps exactly the records at or after the start of the day, with their multiplicities, in order. |
| Views.BeforeEnd | src/App.tsx:166-173 | The end filter keeps exactly the records at or before the end of the day, with their multiplicities, in order. |
| Views.FilterByDate | src/App.tsx:151-177 | With no bound it is the ledger itself. Otherwise it keeps exactly the records inside the inclusive range, each as often as in the ledger, as an order-preserving subsequence. |
| Views.FilterMembership | src/App.tsx:151-177 | A record is in the filtered table iff it is in the ledger and inside the range. |
| Views.FilterKeepsOrder | src/App.tsx:151-177 | The filtered table of a newest-first ledger is newest first. |
| Views.SingleDay | src/App.tsx:155-173 | With both bounds on day `d`, the table holds exactly the records created on day `d`. |
| Views.ZeroCounts | src/App.tsx:137-140 | The `reduce` gives a key for exactly the registered cages, each mapped to 0. |
| Views.CageCounts | src/App.tsx:136-148 | There is a key exactly for each registered cage and each cage some record occupies. Each value is the number of records assigned to that cage and still 'In Cage'. |
| Text.TrimStart | src/App.tsx:105 | The leading-white-space half of `trim`: drops a white-space prefix and stops at a non-space character. |
| Text.TrimEnd | src/App.tsx:105 | The trailing half: drops a white-space suffix and stops at a non-space character. |
| Text.Trim | src/App.tsx:105 | `trim` yields a string with no white space at either end. The result is empty iff the input is all white space. |
| Text.TrimCutsEnds | src/App.tsx:105 | What `trim` returns is a slice `s[i..j]` of its input, with only white space before `i` and after `j`: the input with its ends cut off. |
| Text.TrimOfTrimmed | src/App.tsx:307 | `trim` leaves a trimmed string alone. |
| Text.TrimIdempotent | src/App.tsx:336 | `trim` is idempotent. |
| Text.NatToString | src/App.tsx:225 | The rendering of the index is non-empty, all decimal digits, and one character long exactly for numbers below 10. |
| Text.NatToStringValue | src/App.tsx:225 | The digits the index renders to spell the index back: reading them as a decimal number gives `n`. |
| Text.NatToStringInjective | src/App.tsx:225 | Different indices render differently. |
| Text.TailAfterLastDash | src/App.tsx:225 | In `a-b`, with no dash in `b`, the part after the last dash determines `b`. |

## Left out

- Persistence: the ledger and the registry live only in memory, as in the source. There is no storage to model.
- The XLSX script loading and the two Excel exports: foreign library and DOM I/O. Their "nothing to export" pre-checks are not modelled either.
- Rendering, modals, the `tableRows` memo, busy flags and confirm dialogs: UI only. Each handler is one atomic transition, and React's `useState`/`useEffect` scheduling is not modelled. After a registry change the selection effect is applied directly, as `RevalidateSelections`.
- The localized error texts: each message is one `Error` kind. So is the duplicate message's rendering of the clashing record.
- JavaScript `Date`: ISO string parsing, the local time zone and `toLocaleString`. Timestamps are integer milliseconds and the filter bounds are day numbers; days are UTC days, so the local offset that `setHours` applies is not modelled. An unparsable timestamp (NaN) is not modelled.
- The clock: the add handler takes one reading, `now`. Bulk add takes one reading per record for the id (`nows`) and one for the timestamp (`stamps`). They are parameters, so nothing about how they advance is assumed.
- The status 'Cancelled' exists in the record type, but no handler produces it.
- Bulk ids are proved distinct within one batch. Nothing keeps them apart from ids already in the ledger, and the source does not check this either.
- The `targetCount` parsing (`parseInt(...) || 0`) is UI: the handler takes the resulting integer.
- Views.CageCounts: the app's `counts` is a plain JavaScript object, the model's a `map`. Cage names that are properties every object inherits (`__proto__`, `constructor`, `toString`, ...) are not modelled: in the app such a name gets no own zero entry, or its count is computed from the inherited value, while the model gives it the value `CountInCage`.
- Engine.Tracker.AddOrder: its ensures give the new ledger exactly. The count change follows from `InsertRecord`'s ensures, or from `CountInsert` on that ledger, and is not restated.
- Engine.Tracker.RenameCage: the count change is stated by `CountAfterRename` about the new ledger, not in the method's ensures.
