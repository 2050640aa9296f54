# Admin portal core, modelled in Dafny

This project models the logic inside a small React/Supabase admin portal, written in Dafny.

**User-credits dashboard.** The dashboard keeps, for every saved Gmail-style address, a row per dotted variation of that address. Each row has a status, credits and a capped monthly-credit counter. A row that has been copied is locked until the next 08:00 Philippine time. The model covers:
- the generator for the dotted variations;
- the pass that reduces the stored addresses to one base address per dot-insensitive local part;
- the drag-to-reorder splice of the saved list;
- the rows inserted for missing variations;
- sorting and numbering the loaded rows;
- the status and copy handlers;
- the 08:00 countdown arithmetic.

**Contacts table.** This is an inline-edit table of the contacts of one category. The model tracks the list, the one cell being edited and the row just added. Its handlers cover fetch, add, update (trimmed, blank stored as null), delete, blur/Enter commit, Escape cancel, and the rule that deletes a new row left blank.

**Compensation page.** The model covers:
- commission earnings per employee (40% to the developer, 30% to the sales agent);
- the monthly and yearly breakdowns into company profit (30%) and commissions;
- the revenue distribution;
- the progress towards the 50,000 earnings target;
- the last-ten recent-sales table.

**Backup edge functions.** `export-data` reads the four tables into a versioned envelope. `import-data` upserts an envelope's records table by table and record by record, counting inserted records and errors per table.

The store is abstract in every module:
- In the components, each store call is represented by its outcome, which the caller passes in as a boolean or an `Option`.
- The contacts table also keeps a log of the requests it sends, so that what is sent, and what is not, can be stated.
- In the import, the store is a value: a map from table to a map from id to row. It is threaded through the loop. Whether the store accepts the k-th record of a table is a function parameter.

Where the source's state changes step by step, the model uses classes with methods and loops, and each method is proved against a specification function. This applies to:
- the dashboard and contacts component state;
- the nested loops of the variation generator;
- the dedup pass;
- the earnings `forEach`;
- the import loops.

Pure transformations are modelled as functions and lemmas. Amounts are exact reals.

Files:
- `common.dfy`: `Option`, JavaScript `trim` and truthiness.
- `email_variations.dfy`, `saved_emails.dfy`, `countdown.dfy` and `credits_table.dfy`: the user-credits dashboard.
- `contacts_table.dfy`: the contacts table.
- `compensation.dfy`: the compensation page.
- `store.dfy`, `export_function.dfy` and `import_function.dfy`: the backup functions.

Two details of the code that the model keeps:
- Contact statuses are free text; the selector offers Pending, Already Called and Busy. The update handler trims the status like every other field and stores null for a blank value.
- The import answers the CORS preflight with status 200 and no body. The export answers it with 204.

## Model

| member | source | states |
|---|---|---|
| Common.Trim | src/components/UserCreditsTable.tsx:333 | `trim()` leaves no whitespace at either end of the result |
| Common.TrimIsSlice | src/components/UserCreditsTable.tsx:333-334 | the trimmed text is a contiguous piece of the input with only whitespace cut off on either side |
| Common.TrimEmptyIffAllSpace | src/components/UserCreditsTable.tsx:333 | `newEmail.trim()` is empty (falsy) exactly when the input is whitespace only |
| Common.TrimIdempotent | src/components/UserCreditsTable.tsx:406-423 | trimming the saved address again changes nothing |
| Common.TrimOrNull | src/components/ContactsTable.tsx:85 | the trimmed value, or null when that is empty, is null exactly when the value is whitespace only, and otherwise the non-empty trimmed text |
| EmailVariations.LocalPart | src/components/UserCreditsTable.tsx:144 | the first piece of `split("@")` is the prefix before the first '@' and holds no '@' |
| EmailVariations.Domain | src/components/UserCreditsTable.tsx:144 | the second piece of `split("@")` is missing exactly when the address has no '@'; otherwise it follows the first '@', holds no '@', and runs to the end or to the next '@' |
| EmailVariations.SplitJoin | src/components/UserCreditsTable.tsx:144 | splitting `local@domain` gives back `local` and `domain` when neither holds an '@' |
| EmailVariations.DotJoin | src/components/UserCreditsTable.tsx:152-156 | a dot between every two neighbouring characters gives 2n - 1 characters |
| EmailVariations.Variations | src/components/UserCreditsTable.tsx:143-162 | the first variation is the address itself; a missing local part or domain gives exactly `[email]`; otherwise there are exactly as many variations as local-part characters |
| EmailVariations.GenerateEmailVariations | src/components/UserCreditsTable.tsx:143-162 | the nested loops return exactly `Variations(email)` |
| EmailVariations.VariationProperties | src/components/UserCreditsTable.tsx:150-159 | the k-th variation's local part is the k-th dotted form: it has exactly k more dots, keeps the original's first n - 1 - k characters (n the local-part length), strips back to what the original strips to (to the original itself when that has no dot), and its domain is unchanged |
| EmailVariations.DotFrom | src/components/UserCreditsTable.tsx:151-157 | the inner loop writes the local part with a dot after every character from position i - 1 on except the last, which is the dotted form with n - i dots, n the local-part length |
| EmailVariations.ExampleAbc | src/components/UserCreditsTable.tsx:143-162 | `abc@x.com` gives `abc@x.com`, `ab.c@x.com`, `a.b.c@x.com` |
| EmailVariations.SingleCharacterLocal | src/components/UserCreditsTable.tsx:150 | a one-character local part yields only the original address |
| EmailVariations.StripDots | src/components/UserCreditsTable.tsx:216 | `replace(/\./g, '')` leaves no dot and is no longer than its input |
| SavedEmails.VariationsShareKey | src/components/UserCreditsTable.tsx:216 | every variation of an address has the address's local part once dots are stripped, the key the saved list groups by |
| SavedEmails.KeyOfBaseCandidate | src/components/UserCreditsTable.tsx:216-227 | the dotless candidate `${withoutDots}@${domain}` has the row's key |
| SavedEmails.Chosen | src/components/UserCreditsTable.tsx:226-232 | the address added for a new key is the row's own or a fetched one, and has the row's key |
| SavedEmails.HasKeyIff | src/components/UserCreditsTable.tsx:218-225 | the scan finds the key exactly when some saved address has it |
| SavedEmails.StepShape | src/components/UserCreditsTable.tsx:214-233 | a row whose key is already saved adds nothing; otherwise the set is kept or gains the chosen address, which it did not hold |
| SavedEmails.Dedup | src/components/UserCreditsTable.tsx:213-234 | the saved list has no more entries than fetched rows and holds no address twice, as a `Set` |
| SavedEmails.BaseEmails | src/components/UserCreditsTable.tsx:210-235 | the loop over the fetched rows, with its inner scan of the set, returns the specification `Dedup` |
| SavedEmails.AddRow | src/components/UserCreditsTable.tsx:214-233 | one turn of the `forEach` callback performs exactly the specification step |
| SavedEmails.IsNewKey | src/components/UserCreditsTable.tsx:218-225 | the inner scan of the set leaves `isBase` true exactly when no saved address has the row's local part once dots are stripped |
| SavedEmails.KeyOfChosen | src/components/UserCreditsTable.tsx:226-232 | the address added for a row, dotless or its own, has the row's dot-insensitive local part |
| SavedEmails.DedupFetched | src/components/UserCreditsTable.tsx:225-232 | every saved address occurs in the fetched list |
| SavedEmails.DedupDistinctKeys | src/components/UserCreditsTable.tsx:218-225 | no two saved addresses share a local part once dots are stripped |
| SavedEmails.DedupCoversFetched | src/components/UserCreditsTable.tsx:213-234 | every fetched address's dot-insensitive local part is represented in the saved list |
| SavedEmails.DedupKeysFetched | src/components/UserCreditsTable.tsx:213-234 | every saved local part comes from a fetched address |
| SavedEmails.DotlessWins | src/components/UserCreditsTable.tsx:226-229 | when an address with dots and its dotless form are fetched in that order (as `ab.c@x.com` before `abc@x.com`), only the dotless form is kept |
| SavedEmails.MoveItem | src/components/UserCreditsTable.tsx:437-440 | the two splices put the dragged item at the target index, keep the others in their relative order, and permute the list |
| SavedEmails.MoveItemBack | src/components/UserCreditsTable.tsx:437-440 | dragging an item back to where it came from restores the list |
| Countdown.TimeOfDay | src/components/UserCreditsTable.tsx:69-70 | the time of day lies in one day |
| Countdown.Next8AM | src/components/UserCreditsTable.tsx:69-75 | the target is an 08:00, strictly after the instant and at most a day later |
| Countdown.NoEarlierMorning | src/components/UserCreditsTable.tsx:72-75 | no 08:00 lies between the instant and the target: it is the first one after |
| Countdown.TimeUntil8AM | src/components/UserCreditsTable.tsx:60-83 | the difference is positive and at most a day (so the `totalMs <= 0` reset at line 96 never fires); minutes and seconds lie in 0..59, hours in 0..24; hours, minutes and seconds are the whole-second floor of the difference |
| Countdown.ShouldShowCountdown | src/components/UserCreditsTable.tsx:175-199 | a row never copied is not locked; a row is locked from its copy on, never a full day or more after it, and while locked no 08:00 has passed since the copy |
| Countdown.LockEndsAtCountdownTarget | src/components/UserCreditsTable.tsx:176-200 | a row is locked from its copy on, and is still locked exactly while the running countdown targets the 08:00 that follows the copy |
| CreditsTable.Missing | src/components/UserCreditsTable.tsx:268-269 | the new variations are exactly those not already stored |
| CreditsTable.MissingAppend | src/components/UserCreditsTable.tsx:268-269 | the filter distributes over concatenation, so the new variations keep their order |
| CreditsTable.RowsToInsert | src/components/UserCreditsTable.tsx:268-279 | the rows inserted are exactly for the variations not stored, one per new variation in the filter's order, each Activated with credits 5, monthly 0, max 30 |
| CreditsTable.InsertByLength | src/components/UserCreditsTable.tsx:307 | one insertion step of the stable sort adds exactly the row |
| CreditsTable.InsertByLengthSorted | src/components/UserCreditsTable.tsx:307 | an insertion step keeps the list sorted by length |
| CreditsTable.SortByLength | src/components/UserCreditsTable.tsx:307 | the sort by address length gives a list sorted ascending that is a permutation of the fetched rows |
| CreditsTable.SortByLengthStable | src/components/UserCreditsTable.tsx:299-307 | the sort is stable: rows of one length keep their creation order |
| CreditsTable.Numbered | src/components/UserCreditsTable.tsx:309-317 | the i-th displayed row is numbered i+1 and shows the i-th sorted row's fields |
| CreditsTable.RestoredCopiedRows | src/components/UserCreditsTable.tsx:319-325 | a row number is marked copied exactly when that row's copy lock is still running |
| CreditsTable.LoadedRows | src/components/UserCreditsTable.tsx:306-317 | the loaded rows are as many as fetched, numbered 1..n, ascending by address length, each showing a fetched row |
| CreditsTable.FindUser | src/components/UserCreditsTable.tsx:378 | `find` returns the first row with that id, and none exactly when no row has it |
| CreditsTable.CappedCredits | src/components/UserCreditsTable.tsx:381 | `min(old + 5, max)` never exceeds the maximum or old + 5, and does not decrease a value within the maximum |
| CreditsTable.WithStatus | src/components/UserCreditsTable.tsx:371-373 | only the status changes, and only on the rows with that id |
| CreditsTable.WithMonthlyCredits | src/components/UserCreditsTable.tsx:398-400 | only the monthly credits change, and only on the rows with that id |
| CreditsTable.CopyKeepsCreditsInRange | src/components/UserCreditsTable.tsx:376-403 | copying keeps the row's monthly credits between their old value and the maximum, and leaves every other row as it was |
| CreditsTable.Dashboard.constructor | src/components/UserCreditsTable.tsx:165-173 | the component starts with no rows, nothing copied, nothing saved, nothing dragged |
| CreditsTable.Dashboard.LoadSavedEmails | src/components/UserCreditsTable.tsx:203-240 | on success the saved list is the dedup of the fetched addresses; on error it is kept |
| CreditsTable.Dashboard.SelectEmail | src/components/UserCreditsTable.tsx:450-455 | selecting clears rows and copy marks, sets the selection and shows the table |
| CreditsTable.Dashboard.Back | src/components/UserCreditsTable.tsx:513-516 | Back hides the table and clears the input |
| CreditsTable.Dashboard.InitializeEmailVariations | src/components/UserCreditsTable.tsx:249-292 | the table is cleared; after a successful check it inserts the missing variations with defaults and fetches all variations; after a failed check it stops |
| CreditsTable.Dashboard.FetchEmailsForSelected | src/components/UserCreditsTable.tsx:294-330 | on success the rows are the sorted, numbered fetched rows and the copy marks are restored from the copy times; on error nothing changes |
| CreditsTable.Dashboard.StatusChange | src/components/UserCreditsTable.tsx:360-374 | after a successful update only the status of that id's rows changes; on error nothing changes |
| CreditsTable.Dashboard.CopyRow | src/components/UserCreditsTable.tsx:376-403 | an unknown id does nothing; otherwise the capped credits and copy time are sent; on success the credits are mirrored and the row number marked; on error nothing local changes |
| CreditsTable.Dashboard.ClickCopy | src/components/UserCreditsTable.tsx:110-116 | a copy is refused while the row is in its countdown; otherwise it acts as `handleCopyRow`: an unknown id does nothing, else the capped credits and copy time are sent and, on success, mirrored and the row marked |
| CreditsTable.Dashboard.TypeNewEmail | src/components/UserCreditsTable.tsx:529 | typing sets the input |
| CreditsTable.Dashboard.AddEmail | src/components/UserCreditsTable.tsx:332-358 | a blank input does nothing; otherwise all variations of the trimmed address are inserted; on success the input is cleared and the selection's variations fetched |
| CreditsTable.Dashboard.SaveEmail | src/components/UserCreditsTable.tsx:405-427 | a blank or already saved address does nothing; otherwise its variations are inserted and, on success, it is appended to the saved list and the input cleared |
| CreditsTable.Dashboard.DragStart | src/components/UserCreditsTable.tsx:429-431 | the dragged index is set |
| CreditsTable.Dashboard.DragOver | src/components/UserCreditsTable.tsx:433-444 | with nothing dragged, or over its own place, nothing changes; otherwise the item moves to the target and the dragged index follows it |
| CreditsTable.Dashboard.DragEnd | src/components/UserCreditsTable.tsx:446-448 | the drag ends |
| Contacts.Set | src/components/ContactsTable.tsx:91 | `{ ...c, [field]: value }` changes that column only |
| Contacts.UpdateContacts | src/components/ContactsTable.tsx:89-93 | only the rows with that id change, and only in that column; order and ids are kept |
| Contacts.WithoutId | src/components/ContactsTable.tsx:101 | the filter keeps exactly the rows whose id differs |
| Contacts.WithoutIdAppend | src/components/ContactsTable.tsx:101 | the filter keeps the order of the rows it keeps |
| Contacts.WithoutAbsentId | src/components/ContactsTable.tsx:101 | deleting an id no row has leaves the list unchanged |
| Contacts.DeleteAfterUpdate | src/components/ContactsTable.tsx:108-117 | deleting after the update gives the same list as deleting from the pre-blur list |
| Contacts.FindContact | src/components/ContactsTable.tsx:114 | `find` returns the first row with that id, and none exactly when no row has it |
| Contacts.AbandonedRowLeavesNoTrace | src/components/ContactsTable.tsx:62-120 | a row just added and blurred with a blank business name meets the cleanup rule, and update plus delete leave the list as before the add |
| Contacts.ContactsTable.constructor | src/components/ContactsTable.tsx:32-36 | the table starts empty, with nothing edited and no new row |
| Contacts.ContactsTable.FetchContacts | src/components/ContactsTable.tsx:49-60 | a fetch replaces the list on success and keeps it on error |
| Contacts.ContactsTable.AddNew | src/components/ContactsTable.tsx:62-80 | inserts a blank "Pending" row; on success appends it, marks it new and edits its business name; on failure nothing changes |
| Contacts.ContactsTable.HandleUpdate | src/components/ContactsTable.tsx:82-95 | sends the trimmed value, or null when that is empty; on success writes it into that id's rows; on error keeps the list |
| Contacts.ContactsTable.ChangeStatus | src/components/ContactsTable.tsx:240 | a status pick is an update of the status column |
| Contacts.ContactsTable.HandleDelete | src/components/ContactsTable.tsx:97-106 | a successful delete removes exactly that id's rows; a failed one keeps the list |
| Contacts.ContactsTable.HandleBlur | src/components/ContactsTable.tsx:108-120 | the update is always sent; the delete is sent exactly under the cleanup rule, judged on the pre-edit row; the editor and the new-row mark are cleared |
| Contacts.ContactsTable.HandleKeyDown | src/components/ContactsTable.tsx:122-130 | Enter acts exactly as blur; Escape clears the editor and new-row mark without sending anything; other keys do nothing |
| Contacts.ContactsTable.ClickCell | src/components/ContactsTable.tsx:188 | clicking a text cell edits exactly that (id, column) |
| Compensation.Credited | src/pages/Compensation.tsx:90-97 | the sales an employee is paid on are those where they are the developer (Web Developer) or the agent (Sales Agent) |
| Compensation.AccumulatedIsEarned | src/pages/Compensation.tsx:90-98 | accumulating sale by sale gives the role's rate times the credited revenue, and counts the credited sales |
| Compensation.EarningsOf | src/pages/Compensation.tsx:85-105 | the loop computes the role's rate, rate times credited revenue, and the number of credited sales |
| Compensation.EmployeeEarnings | src/pages/Compensation.tsx:84-107 | one entry per employee, in order, with those earnings |
| Compensation.WeightedRevenueIsScaled | src/pages/Compensation.tsx:117-118 | summing `amount * rate` is the rate times the revenue |
| Compensation.WeightCounts | src/pages/Compensation.tsx:39-42 | a sale pays 40% per credited developer and 30% per credited agent |
| Compensation.CommissionsAndProfitMakeRevenue | src/pages/Compensation.tsx:39-43 | when each sale has one developer and one agent among the employees, all earnings plus the company's 30% are the revenue |
| Compensation.Pad2 | src/pages/Compensation.tsx:113 | `padStart(2, "0")` gives two digits that read back as the month number |
| Compensation.Pad2Injective | src/pages/Compensation.tsx:113 | different months get different tags |
| Compensation.MonthTagMatch | src/pages/Compensation.tsx:113-114 | a well-formed `YYYY-MM-DD` date includes a month's tag exactly when its MM is that month |
| Compensation.MonthSales | src/pages/Compensation.tsx:114 | the month's sales are exactly those whose date includes the tag |
| Compensation.MonthRowOf | src/pages/Compensation.tsx:112-127 | a month's profit is 30%, its developer commissions 40% and its agent commissions 30% of its revenue, which they sum to; `projects` counts its sales |
| Compensation.MonthlyData | src/pages/Compensation.tsx:110-129 | one row per month, January to April, in order |
| Compensation.MonthsPartitionTheYear | src/pages/Compensation.tsx:110-129 | with dates in January to April, the monthly revenues and project counts add up to the year's |
| Compensation.YearlyTotals | src/pages/Compensation.tsx:142-153 | profit plus commissions is the revenue; the project count is the number of sales |
| Compensation.YearToDateRowBalances | src/pages/Compensation.tsx:480-491 | the year-to-date row's commission columns sum to the total commissions, and with profit to the revenue |
| Compensation.Distribution | src/pages/Compensation.tsx:156-163 | the three slices sum to the revenue |
| Compensation.Progress | src/pages/Compensation.tsx:441 | the bar never exceeds 100, is full exactly from 50,000 on, and is proportional below |
| Compensation.Round | src/pages/Compensation.tsx:439 | `Math.round` is within one half of its argument |
| Compensation.ProgressLabel | src/pages/Compensation.tsx:439 | the label never exceeds 100, reads 100 exactly from 49,750 on, and below that is the rounded percentage |
| Compensation.LabelFullBeforeBar | src/pages/Compensation.tsx:438-441 | at 49,750 the label reads 100% while the bar is at 99.5 |
| Compensation.Reverse | src/pages/Compensation.tsx:518 | `reverse()` puts element i at position n-1-i |
| Compensation.RecentSales | src/pages/Compensation.tsx:518 | the last min(10, n) sales, newest first |
| Compensation.SplitOf | src/pages/Compensation.tsx:530-532 | a sale's developer, agent and company shares sum to its amount |
| BulkStore.TableIndex | supabase/functions/import-data/index.ts:36-98 | each table has its place in the import order |
| BulkStore.TableOrderListsEachTableOnce | supabase/functions/import-data/index.ts:29-98 | the import order lists each of the four tables exactly once, under distinct names |
| BulkStore.Upsert | supabase/functions/import-data/index.ts:39-41 | an upsert stores the record under its id and leaves every other id and table untouched |
| ExportFunction.OrEmpty | supabase/functions/export-data/index.ts:50-53 | a failed read exports `[]`, a successful one its rows verbatim |
| ExportFunction.Tables | supabase/functions/export-data/index.ts:46-55 | the envelope has exactly the four table keys, each with its read or `[]` |
| ExportFunction.Serve | supabase/functions/export-data/index.ts:9-71 | OPTIONS gives 204 with no body; a missing URL or key gives 500 "Server configuration error"; otherwise 200 with version "1.0" and the four tables |
| ImportFunction.Tally | supabase/functions/import-data/index.ts:43-48 | `inserted + errors` is the length of the table's list |
| ImportFunction.UpsertsOf | supabase/functions/import-data/index.ts:37-98 | one upsert per record, in file order |
| ImportFunction.Results | supabase/functions/import-data/index.ts:29-34 | every table has a result; tables not reached yet, and absent lists, count zero |
| ImportFunction.UpsertTable | supabase/functions/import-data/index.ts:37-50 | one table's loop upserts the records in order, counting each as inserted or as an error and going on after an error |
| ImportFunction.Serve | supabase/functions/import-data/index.ts:8-114 | OPTIONS gives 200 with no body; an unparsable body or one without `tables` gives 500 before any upsert; otherwise tables in the fixed order, 200 with `success` and the counts |
| ImportFunction.ResultsStep | supabase/functions/import-data/index.ts:43-48 | finishing a table changes only that table's result |
| ImportFunction.LastAccepted | supabase/functions/import-data/index.ts:39-41 | the last accepted record with an id is one of the table's records with that id |
| ImportFunction.ImportRowsOtherTables | supabase/functions/import-data/index.ts:36-98 | importing one table leaves the others untouched |
| ImportFunction.ImportRowsLookup | supabase/functions/import-data/index.ts:38-49 | after a table's loop an id holds its last accepted record; other ids are untouched |
| ImportFunction.ImportTablesLookup | supabase/functions/import-data/index.ts:36-98 | the same after all four tables |
| ImportFunction.TallyAllAccepted | supabase/functions/import-data/index.ts:43-48 | when the store accepts everything, every record counts as inserted |
| ImportFunction.ExportThenImport | supabase/functions/import-data/index.ts:36-105 | importing an export into an empty store that accepts everything restores every exported row under its id, and only those ids, and counts every row as inserted |

## Left out

- Rendering, styling, charts, routing and the pages and components that only render.
- Browser I/O: the clipboard write and the copy check mark's timer, toasts, input focus and `console` logging.
- The countdown's `setInterval`: the model states the arithmetic of one tick, not the timer.
- Wall-clock time zones: instants are milliseconds on the Philippine (UTC+8) wall clock. The conversion through `getTimezoneOffset`, `setHours`/`setDate` and daylight saving is not modelled. Copy times are instants, not ISO-8601 strings.
- Loading flags (`loading`, `dashboardLoading`) and the "Loading..." views.
- Floating point: amounts and rates are exact reals, so IEEE rounding of `0.4` and `0.3` is not modelled. `Intl.NumberFormat` and date formatting are not modelled either.
- The constant employees, sales and weekly rows of the compensation page: they are inputs to the functions, and the weekly rows are not modelled.
- The recent-sales table's name lookup of the developer and the agent.
- Asynchronous interleavings. The store calls of the components and the functions are taken to complete in the order they are issued. `Promise.all` in the export is not modelled.
- Contacts.ContactsTable.HandleBlur: applies the delete after the update. The source fires both without waiting, and each writes back the list it started from. The model therefore does not show the update resurrecting a deleted row when the update's response arrives after the delete's.
- The store's own behaviour: queries, ordering by `created_at`, and a thrown client error outside the modelled error results. An upsert replaces the whole row under its id; partial column merges are not modelled.
- JSON: parsing and printing of request and response bodies. An import body that does not parse is represented by its error message.
- An import `tables` entry that is not a list is not modelled; a `tables` value is either absent or a map of lists.
- The import's environment lookup: a missing URL or key, which makes the client throw, is not modelled.
- Response headers (CORS, content type).
- CreditsTable.Dashboard.DragOver: requires the dragged index to lie in the saved list. Loading the saved list mid-drag could shrink the list under the index; that case is not modelled.
- CreditsTable.Dashboard.DragStart: requires the index to lie in the saved list, as every rendered item's index does.
- Contacts.ContactsTable.ClickCell: requires a text column; the status column has a selector and no click handler.
- Contacts.ContactsTable.AddNew: appends `BlankContact`, which takes the columns the insert leaves out (email, mobile number, notes) to be null. The source appends whatever row the store returns from `.insert().select().single()`; column defaults set by the database are not modelled.
- Strings are sequences of Unicode code points, while JavaScript strings are sequences of UTF-16 code units. A local part holding a character outside the Basic Multilingual Plane therefore gets fewer variations in the model (`a😀b@x.com` gives 4 in the source and 3 here), and the sort by address length can order such addresses differently.
