# RouteBastion: a verified model

RouteBastion is a monorepo with a NestJS admin API over PostgreSQL, a Vue admin UI, and a
Go broker. This project models the parts of it whose correctness is not visible in any one
function, and proves what they promise together. `dafny verify dfyconfig.toml` checks it.

| files | what they model |
|---|---|
| `Keyset.dfy`, `KeysetWalk.dfy`, `StaticListing.dfy` | the keyset listing shared by customers and admins: one page, a walk along `nextCursor` over a table that changes between requests, a walk over a table that does not |
| `Numerals.dfy`, `IsoDate.dfy`, `CursorCodec.dfy` | the opaque cursor: ISO 8601 date text, JSON, base64url, and UUID text |
| `CustomersTable.dfy`, `CustomersService.dfy` | the customers table with soft deletion and its partial unique index, the Drizzle repository, the service, and the plain map of customers that the service is equivalent to |
| `CustomersTraffic.dfy` | requests to the service interleaved at their repository calls, and a client that pages through the table meanwhile |
| `AdminsService.dfy` | the admins table, repository and service, and whose password a stored hash is |
| `ListStore.dfy`, `ListStoreAsync.dfy` | the Pinia list store behind both screens, with actions that complete one at a time and with actions that overlap at their awaits |
| `CustomersPaging.dfy` | store, service, codec and query together: the screen shows part of one sorted list, exactly when it is the slice its page number says, and what turning pages shows while others change the table |
| `Router.dfy`, `RouterOrder.dfy` | the greedy pickup and delivery router |
| `Cnpj.dfy` | the CNPJ check digits, the schema, and the mask |
| `DisableCustomer.dfy` | the broker's transaction wrapper and `DisableCustomer` under every failure and panic |

How the model reads the system:

- Times in tables are whole microseconds. A cursor carries a JavaScript Date, so it keeps whole
  milliseconds. The resolution is a parameter: `Exact` is the cursor that would carry the stored
  time, `Millis` is the one the code has.
- Ids are 128-bit numbers; their order is the order of the `uuid` type. Column defaults (`uuidv7()`,
  `now()`) and `new Date()` are inputs of the operation. A new id is one that no row has.
- ILIKE is an arbitrary relation between a text and a search term.
- PostgreSQL executes one statement atomically and refuses a write that breaks a unique index.
- The haversine distance is an arbitrary function with values in [0, MaxFloat64). That it is never
  NaN is an assumption. Distances are added without rounding.
- A rollback always ends its transaction: when the statement itself fails, the connection is
  dropped, and PostgreSQL then rolls back. A commit that fails, with or without having taken effect,
  ends it too; only a panic inside a commit can leave it open.
- A request for a page is a function of the search term and the cursor, or it is lost.

Where the code and what it is for differ:

- **The millisecond cursor can lose rows.** `list` compares a microsecond column with a cursor that
  was cut to milliseconds, so rows created in the same millisecond as a page's last row can be
  skipped. `StaticListing.WalkIsCompleteIff` says exactly when a walk is complete;
  `StaticListing.MillisecondCursorLosesRows` gives a listing that loses a row for every page size, and
  `CustomersPaging.BusyMillisecondLosesACustomer` a customers table and what its screens show.
- **The pre-check is not enough under concurrency.** `CustomersTraffic.CrashesIff`, `CreateOutcome`
  and `UpdateOutcome` say exactly when a request ends in a database error instead of a 409, and when
  an update that is reported as done leaves a deleted customer. `RacingCreatesCrash`,
  `SkippedLookupCrashes` and `StaleUpdateAnswersDone` are such runs.
- **Overlapping loads can leave the screen out of step.** `ListStoreAsync.InStepIff`: it is in step
  exactly when the load that ended last is the one that was sent last; `StaleAnswerWins` is a run
  that ends out of step. Requests are told apart by search term and cursor only, so an answer that
  an earlier, equal request got from an older table counts as in step.
- **Overlapping clicks can break the chain of cursors behind Previous.** `ListStoreAsync.ChainIff`: it
  holds throughout a run exactly when every Next that pushes finds the cursor issued with the page of
  the top, as it always does when loads do not overlap. `DoubleNextRepeatsAPage` is a run that ends
  in step with a broken chain, and `CustomersPaging.DoubleNextBreaksTheChain` has it for every table.
- **The millisecond cursor can shift pages.** `CustomersPaging.AllScreensAreSlicesIff`: the pages of
  the UI are the slices [10k, 10k+10) of the list exactly when no page boundary skips a row.
- **The order of the shipments can matter.** `RouterOrder.OrderIsIrrelevantIff`: it does exactly when
  some choice of the route is not blank and ties with another available stop.
- **Some single wrong digits pass the CNPJ check**, at three positions of numbers ending in 00:
  `Cnpj.OneWrongDigit` says exactly which, `Cnpj.UndetectedChanges` gives four such numbers.
- The router starts its lists with zero values (`make` with a length, then `append`). The model keeps
  them: the steps and the result carry blank prefixes, and `RouterOrder.BlanksAreVisited` shows that the
  route drives to a blank stop twice per shipment.

## Model

| member | source | states |
|---|---|---|
| Keyset.SortedEnumerates | apps/admin-api/src/modules/infra/database/drizzle/repositories/drizzle-customers.repository.ts:71-76 | the ORDER BY lists every matching key once, strictly descending by (createdAt, id) |
| Keyset.SortedIsUnique | apps/admin-api/src/modules/infra/database/drizzle/repositories/drizzle-customers.repository.ts:71-76 | there is only one such listing, so any correct execution of the query returns it |
| Keyset.SortedIsNewestFirst | apps/admin-api/src/modules/infra/database/drizzle/repositories/drizzle-customers.repository.ts:71-76 | the order in the columns' terms: newest first, and of equal times the greater id first |
| Keyset.NextIsCursor | apps/admin-api/src/modules/infra/database/drizzle/repositories/drizzle-customers.repository.ts:78-86 | for every limit, the cursor issued has the id of the page's last row and its stored time, or the whole millisecond that the time falls in |
| Keyset.PageMeaning | apps/admin-api/src/modules/infra/database/drizzle/repositories/drizzle-customers.repository.ts:59-86 | a page is the `limit` greatest keys under the cursor, in order; a next cursor is issued exactly when some key under the bound is left out, and it is the last row's id with that row's stored time or the whole millisecond that it falls in |
| Keyset.PageIsSlice | apps/admin-api/src/modules/infra/database/drizzle/repositories/drizzle-customers.repository.ts:59-86 | for every table, position and resolution, the page after the first m keys is the slice of the sorted listing at the position where the cursor resumes; it is the slice at m if and only if the cursor does not skip the key at m |
| KeysetWalk.WalkDescends | apps/admin-api/src/modules/infra/database/drizzle/repositories/drizzle-customers.repository.ts:47-86 | however the table changes between requests and whatever the cursor rounds off, following nextCursor emits strictly descending keys |
| KeysetWalk.SkippedIsLost | apps/admin-api/src/modules/customers/cursor.ts:3-10 | a key between a page's last key and the cursor made of it is returned by no page of the walk, earlier or later |
| KeysetWalk.GapIsOneTick | apps/admin-api/src/modules/customers/cursor.ts:3-10 | a cursor skips nothing outside the millisecond of the page's last row, and nothing at all when it carries the stored time |
| KeysetWalk.SkippedSharesItsMillisecond | apps/admin-api/src/modules/customers/cursor.ts:3-10 | whatever a walk loses was created in the same millisecond as a row that it listed above it |
| KeysetWalk.WalkEmitsExactly | apps/admin-api/src/modules/infra/database/drizzle/repositories/drizzle-customers.repository.ts:59-86 | in a finished walk over a changing table, a key that matched at every read is returned if and only if it fell into no such gap |
| KeysetWalk.WalkRepeatsNoId | apps/admin-api/src/modules/infra/database/drizzle/repositories/drizzle-customers.repository.ts:47-119 | no id is returned twice, as long as rows keep their creation time |
| KeysetWalk.WalkListsOnce | apps/admin-api/src/modules/infra/database/drizzle/repositories/drizzle-customers.repository.ts:47-119 | with whole-millisecond times, whatever matched at every read is returned exactly once |
| StaticListing.WalkFrom | apps/admin-api/src/modules/infra/database/drizzle/repositories/drizzle-admins.repository.ts:41-75 | asking for page after page until nextCursor is null terminates for every table, limit >= 1 and resolution, and makes at least one request |
| StaticListing.WalkOmitsExactly | apps/admin-api/src/modules/infra/database/drizzle/repositories/drizzle-admins.repository.ts:41-75 | over an unchanged table the walk is strictly descending and returns exactly the matching keys that fall into no gap |
| StaticListing.ExactWalkListsAll | apps/admin-api/src/modules/infra/database/drizzle/repositories/drizzle-admins.repository.ts:41-75 | with an exact cursor the concatenated pages are the whole sorted listing |
| StaticListing.WholeWalkListsAll | apps/admin-api/src/modules/infra/database/drizzle/repositories/drizzle-admins.repository.ts:41-75 | so they are with the millisecond cursor when all stored times are whole milliseconds |
| StaticListing.WalkIsCompleteIff | apps/admin-api/src/modules/infra/database/drizzle/repositories/drizzle-admins.repository.ts:41-75 | the pages are the whole listing if and only if, at each page boundary of the sorted table, the next row is under the cursor of the row before it |
| StaticListing.MillisecondCursorLosesRows | apps/admin-api/src/modules/customers/cursor.ts:3-10 | for every page size there is a table of one row more than a page that a walk with the millisecond cursor does not list in full |
| StaticListing.PageStartsInStep | apps/admin-api/src/modules/infra/database/drizzle/repositories/drizzle-customers.repository.ts:59-86 | page k of a walk starts at row k * limit if and only if none of the k page boundaries before it skips a row |
| StaticListing.LosslessIsCleanTo | apps/admin-api/src/modules/infra/database/drizzle/repositories/drizzle-customers.repository.ts:59-86 | a listing is walked without loss if and only if every page of it starts in step |
| IsoDate.FieldsOf | apps/admin-api/src/modules/customers/cursor.ts:5 | every time value of a Date has a proper calendar date and clock time, in a year that six digits can write |
| IsoDate.Epoch | apps/admin-api/src/modules/customers/cursor.ts:5 | time 0 is 1970-01-01 at midnight |
| IsoDate.NextDay | apps/admin-api/src/modules/customers/cursor.ts:5 | a day later it is the next date, with month lengths and leap years written out, at the same time of day |
| IsoDate.ClockOf | apps/admin-api/src/modules/customers/cursor.ts:5 | hours, minutes, seconds and milliseconds add up to what has passed of the day |
| IsoDate.FieldsAreUnique | apps/admin-api/src/modules/customers/cursor.ts:5 | a date and a time of day belong to one time value only |
| IsoDate.DateLayout | apps/admin-api/src/modules/customers/cursor.ts:5 | the toISOString text character by character: decimal digits and separators of YYYY-MM-DDTHH:mm:ss.sssZ, or a sign and six digits for the year |
| IsoDate.DateRoundTrip | apps/admin-api/src/modules/customers/cursor.ts:5-20 | reading that text gives the time value back, expanded years included |
| CursorCodec.Base64RoundTrip | apps/admin-api/src/modules/customers/cursor.ts:9-18 | unpadded base64url decodes to the bytes that were encoded, for every length |
| CursorCodec.Base64Layout | apps/admin-api/src/modules/customers/cursor.ts:9 | the text of any bytes: the i-th three bytes, as 24 bits, are the i-th four characters of the URL-safe alphabet, one or two last bytes are two or three, with no padding |
| CursorCodec.AlphabetTable | apps/admin-api/src/modules/customers/cursor.ts:9-18 | the alphabet is that of RFC 4648 table 2, in both directions |
| CursorCodec.EncodedText | apps/admin-api/src/modules/customers/cursor.ts:3-10 | what is encoded is, byte for byte, the JSON text of the instant and the id |
| CursorCodec.PayloadRoundTrip | apps/admin-api/src/modules/customers/cursor.ts:4-18 | parsing the JSON payload gives exactly the two members that were written |
| CursorCodec.CursorRoundTrip | apps/admin-api/src/modules/customers/cursor.ts:3-32 | decodeCursor(encodeCursor(c)) is c for every millisecond and every id of plain characters, and the text is never empty |
| CursorCodec.IdRoundTrip | apps/admin-api/src/modules/infra/database/drizzle/tables/customers.ts:13 | the text of a uuid reads back as that uuid |
| CursorCodec.IdLayout | apps/admin-api/src/modules/infra/database/drizzle/tables/customers.ts:13 | the text is 32 lower-case hexadecimal digits, most significant first, with hyphens after the 8th, 12th, 16th and 20th |
| CustomersTable.InsertFits | apps/admin-api/src/modules/infra/database/drizzle/tables/customers.ts:25-30 | inserting a live row keeps the partial unique index exactly when no live row has the identifier |
| CustomersTable.UpdateFits | apps/admin-api/src/modules/infra/database/drizzle/tables/customers.ts:25-30 | an update keeps the index exactly when the row is deleted or no other live row has the identifier |
| CustomersTable.SoftDeleteFits | apps/admin-api/src/modules/infra/database/drizzle/repositories/drizzle-customers.repository.ts:114-119 | a soft delete never breaks the index |
| CustomersTable.MatchingIsTheTable | apps/admin-api/src/modules/infra/database/drizzle/repositories/drizzle-customers.repository.ts:47-58 | the rows listed are the live ones, all for an empty search and otherwise those whose name or identifier is like it, placed by createdAt and id |
| CustomersTable.CustomersRepository.GetByBusinessIdentifier | apps/admin-api/src/modules/infra/database/drizzle/repositories/drizzle-customers.repository.ts:30-45 | returns the live owner of the identifier, or nothing when no live row has it |
| CustomersTable.CustomersRepository.List | apps/admin-api/src/modules/infra/database/drizzle/repositories/drizzle-customers.repository.ts:47-86 | returns the rows of the keyset page as the table holds them; the next cursor is the last row's id and the whole millisecond of its createdAt |
| CustomersTable.CustomersRepository.Create | apps/admin-api/src/modules/infra/database/drizzle/repositories/drizzle-customers.repository.ts:88-98 | succeeds exactly when the index allows the row, and otherwise changes nothing |
| CustomersTable.CustomersRepository.Update | apps/admin-api/src/modules/infra/database/drizzle/repositories/drizzle-customers.repository.ts:100-112 | succeeds exactly when the index allows the change, and otherwise changes nothing; creation time, deletion and id stay |
| CustomersTable.CustomersRepository.SoftDelete | apps/admin-api/src/modules/infra/database/drizzle/repositories/drizzle-customers.repository.ts:114-119 | marks the one row and keeps the table valid |
| CustomersService.BoundRoundTrip | apps/admin-api/src/modules/customers/customers.service.ts:44-57 | the bound that a client hands back as text is the bound that the previous page made |
| CustomersService.CustomersService.Create | apps/admin-api/src/modules/customers/customers.service.ts:20-42 | table and reply are those of the sequential model, which RunsLikeAPlainMap describes |
| CustomersService.CustomersService.Update | apps/admin-api/src/modules/customers/customers.service.ts:59-95 | table and reply are those of the sequential model |
| CustomersService.CustomersService.Delete | apps/admin-api/src/modules/customers/customers.service.ts:97-107 | table and reply are those of the sequential model |
| CustomersService.CustomersService.List | apps/admin-api/src/modules/customers/customers.service.ts:44-57 | the page of ten for the decoded cursor; a cursor that does not decode asks for the first page |
| CustomersService.PreChecksAreExact | apps/admin-api/src/modules/customers/customers.service.ts:20-95 | create and update answer AlreadyExists if and only if the write would break the index, so the index never fires, although update skips the lookup for an unchanged identifier |
| CustomersService.SameListing | apps/admin-api/src/modules/customers/customers.service.ts:44-57 | listings of the soft-deleting table are those of the map of live customers: page, search rule, members of each output, next cursor text, the first page for no cursor or a text that is none, and a failure for a cursor whose id is no uuid |
| CustomersService.ServeRefinesPlain | apps/admin-api/src/modules/customers/customers.service.ts:20-107 | every request is answered as a plain map with real deletion would answer it, member by member of the output, and leaves the corresponding map |
| CustomersService.FreedIdentifierIsReusable | apps/admin-api/src/modules/infra/database/drizzle/tables/customers.ts:26 | after a delete, a create with the freed identifier succeeds |
| CustomersService.RunsLikeAPlainMap | apps/admin-api/src/modules/customers/customers.service.ts:20-107 | over every sequential run the replies, conflicts, misses and listings are those of the plain map |
| CustomersTraffic.AloneIsServe | apps/admin-api/src/modules/customers/customers.service.ts:20-107 | a request whose repository calls are not interrupted is the service method |
| CustomersTraffic.TrafficKeeps | apps/admin-api/src/modules/infra/database/drizzle/repositories/drizzle-customers.repository.ts:88-119 | every interleaving keeps the unique index, every row, its creation time and its deletion |
| CustomersTraffic.NoDuplicatesAndNoRevival | apps/admin-api/src/modules/customers/customers.service.ts:59-107 | no two live customers share an identifier, and a stale update never makes a deleted customer live again |
| CustomersTraffic.OnlyUpdateOrDeleteFrees | apps/admin-api/src/modules/customers/customers.service.ts:59-107 | only the write of an update or of a delete takes an identifier away from its owner |
| CustomersTraffic.AtMostOneCreateWins | apps/admin-api/src/modules/customers/customers.service.ts:20-42 | while nothing frees an identifier, at most one of any number of concurrent creates for it succeeds, and none if it was taken |
| CustomersTraffic.OnlyInsertOrUpdateTakes | apps/admin-api/src/modules/customers/customers.service.ts:20-95 | an identifier without an owner gets one only by the insert of a create for it or the write of an update to it |
| CustomersTraffic.CrashesIff | apps/admin-api/src/modules/customers/customers.service.ts:20-107 | in every interleaving a call ends in a database error if and only if it is the insert of a create whose identifier has an owner by then, or the write of an update to a live row whose identifier is another's by then, looked up or not |
| CustomersTraffic.CreateOutcome | apps/admin-api/src/modules/customers/customers.service.ts:20-42 | a create among any traffic answers AlreadyExists exactly when its lookup found an owner; else its insert crashes exactly when the identifier has an owner by then, and succeeds otherwise |
| CustomersTraffic.LiveUnlessDeleteLands | apps/admin-api/src/modules/infra/database/drizzle/repositories/drizzle-customers.repository.ts:88-119 | after any traffic a live customer is still live if and only if no delete of it made its write |
| CustomersTraffic.UpdateOutcome | apps/admin-api/src/modules/customers/customers.service.ts:59-95 | an update among any traffic that reaches its write found its row live and still finds it; the write crashes exactly when the row is live and the identifier is another's, and an answer of success leaves the row live if and only if no delete of it landed since the lookup |
| CustomersTraffic.RacingCreatesCrash | apps/admin-api/src/modules/customers/customers.service.ts:20-42 | witness for CreateOutcome: for every table two creates that both looked first end as one success and one database error |
| CustomersTraffic.SkippedLookupCrashes | apps/admin-api/src/modules/customers/customers.service.ts:68-77 | witness for CrashesIff: an update that keeps its identifier, and so skips the lookup, crashes when the identifier was given up and taken by another meanwhile |
| CustomersTraffic.StaleUpdateAnswersDone | apps/admin-api/src/modules/customers/customers.service.ts:59-95 | witness for UpdateOutcome: an update that read its row before a delete reports success and writes to a row that stays deleted |
| CustomersTraffic.WalkUnderTraffic | apps/admin-api/src/modules/infra/database/drizzle/repositories/drizzle-customers.repository.ts:47-119 | a listing walked during any concurrent traffic is strictly descending and repeats no customer; every customer that stayed listed appears exactly once, or never if some page's cursor skipped it, which whole-millisecond times exclude |
| AdminsService.UpdateFits | apps/admin-api/src/modules/infra/database/drizzle/tables/admins.ts:8 | an update keeps the unique email exactly when no other admin has it |
| AdminsService.AdminsRepository.List | apps/admin-api/src/modules/infra/database/drizzle/repositories/drizzle-admins.repository.ts:41-75 | returns the rows of the keyset page over the admins whose name matches; the next cursor is the last row's id and the whole millisecond of its createdAt |
| AdminsService.MatchingIsTheTable | apps/admin-api/src/modules/infra/database/drizzle/repositories/drizzle-admins.repository.ts:41-66 | the admins listed are all for an empty search and otherwise those whose name is like it, placed by createdAt and id |
| AdminsService.AdminsRepository.Update | apps/admin-api/src/modules/infra/database/drizzle/repositories/drizzle-admins.repository.ts:90-110 | succeeds exactly when the email stays unique; a reset clears the hash and sets the pending flag, otherwise both stay |
| AdminsService.AdminsService.Create | apps/admin-api/src/modules/admins/admins.service.ts:20-39 | table and reply are those of the sequential model |
| AdminsService.AdminsService.Update | apps/admin-api/src/modules/admins/admins.service.ts:56-89 | table and reply are those of the sequential model |
| AdminsService.AdminsService.SetStatus | apps/admin-api/src/modules/admins/admins.service.ts:91-114 | table and reply are those of the sequential model |
| AdminsService.AdminsService.Delete | apps/admin-api/src/modules/admins/admins.service.ts:116-126 | table and reply are those of the sequential model |
| AdminsService.PreChecksAreExact | apps/admin-api/src/modules/admins/admins.service.ts:20-89 | create and update answer AlreadyExists if and only if the write would break the unique email |
| AdminsService.ConstraintNeverFires | apps/admin-api/src/modules/admins/admins.service.ts:20-126 | over every sequential run the email stays unique and no operation ends in a database error |
| AdminsService.RunsAnswer | apps/admin-api/src/modules/admins/admins.service.ts:20-126 | over every sequential run each operation does to the rows, member by member, what it promises, leaves all other rows alone, and answers NotFound exactly for a missing id, AlreadyExists exactly for an email of another admin, and otherwise the row as stored |
| AdminsService.PasswordsBelongToEmails | apps/admin-api/src/modules/admins/admins.service.ts:56-89 | over every sequential run, a stored hash was chosen at a step since which the admin has held the current email without a break, and there is no hash exactly while a password is pending |
| AdminsService.PasswordKeptUnlessEmailChanges | apps/admin-api/src/modules/infra/database/drizzle/repositories/drizzle-admins.repository.ts:90-124 | other updates, blocking and unblocking keep the hash, and a changed email always clears it |
| ListStore.Store.Load | apps/admin-ui/src/modules/customers/stores/customers.store.ts:22-40 | the refs after a load are those of the reply, or cleared with an error when the request is lost |
| ListStore.Store.Refetch | apps/admin-ui/src/modules/customers/stores/customers.store.ts:42-49 | rewinds the stack and loads the first page |
| ListStore.Store.FetchNext | apps/admin-ui/src/modules/customers/stores/customers.store.ts:51-58 | pushes the next cursor and loads its page, or does nothing without one |
| ListStore.Store.FetchPrev | apps/admin-ui/src/modules/customers/stores/customers.store.ts:60-67 | pops the stack and loads the page of the new top, or does nothing on the first page |
| ListStore.Store.SetSearch | apps/admin-ui/src/modules/customers/stores/customers.store.ts:69-72 | trims the term and loads its first page |
| ListStore.Store.Mutate | apps/admin-ui/src/modules/admins/stores/admins.store.ts:74-97 | an accepted mutation rewinds and reloads from the changed server, a refused one changes nothing |
| ListStore.ActMeaning | apps/admin-ui/src/modules/customers/stores/customers.store.ts:22-87 | each action in a user's terms: which page is asked for under which search, the stack left for Previous, the page or the error shown, and when nothing happens |
| ListStore.TrimMeaning | apps/admin-ui/src/modules/customers/stores/customers.store.ts:69-72 | trimming takes the white space at both ends and nothing else |
| ListStore.RunsAreConsistent | apps/admin-ui/src/modules/customers/stores/customers.store.ts:16-87 | after every sequence of completed actions with any failing loads, the stack is the chain of cursors that the server issued for the current search, and the items are the page of its top or cleared |
| ListStore.PrevUndoesNext | apps/admin-ui/src/modules/customers/stores/customers.store.ts:51-67 | Next, even with a lost load, and then Previous restores the whole view |
| ListStoreAsync.RunsAreWellFormed | apps/admin-ui/src/modules/admins/stores/admins.store.ts:16-97 | in every interleaving the stack is not empty, its bottom is undefined, all else on it is a cursor, and loading implies a request in flight |
| ListStoreAsync.AloneIsAct | apps/admin-ui/src/modules/admins/stores/admins.store.ts:22-97 | an action whose load ends before anything else happens is the action of the store whose actions complete one at a time, whatever else is in flight; a disabled button and a refused mutation change and send nothing |
| ListStoreAsync.PreviousGoesBack | apps/admin-ui/src/modules/admins/stores/admins.store.ts:51-67 | however many Nexts were clicked and whatever arrived meanwhile, as many Previous lead back through the same stacks to the very stack at the start |
| ListStoreAsync.SendingShowsLoading | apps/admin-ui/src/modules/admins/stores/admins.store.ts:22-28 | whatever sends a request shows the loading flag, takes the error away and leaves the page standing, and nothing else that happens before an answer changes the screen |
| ListStoreAsync.ScreenIsLastEnded | apps/admin-ui/src/modules/admins/stores/admins.store.ts:22-40 | in every interleaving the items and the next cursor are those of the load that completed last |
| ListStoreAsync.WantedIsLastSent | apps/admin-ui/src/modules/admins/stores/admins.store.ts:16-97 | in every interleaving the search term and the top of the stack are those of the load that was sent last |
| ListStoreAsync.InStepIff | apps/admin-ui/src/modules/admins/stores/admins.store.ts:22-97 | in every interleaving the screen holds the answer to a request for the current search and the top of the stack if and only if the load that ended last is the one sent last, requests being told apart by search and cursor |
| ListStoreAsync.SeparateLoadsStayInStep | apps/admin-ui/src/modules/admins/stores/admins.store.ts:22-97 | so if loads never overlap, then with none in flight the load that ended last is the one sent last, and the screen answers the current search and the top of the stack |
| ListStoreAsync.ChainIff | apps/admin-ui/src/modules/admins/stores/admins.store.ts:22-67 | for every server and interleaving, the stack is the chain of cursors issued for the current search at every point if and only if every Next that pushes finds, as the next cursor, the one that the server issues with the page of the top |
| ListStoreAsync.InStepPushesIssued | apps/admin-ui/src/modules/admins/stores/admins.store.ts:51-58 | when loads bring the server's answers or are lost, a Next clicked while the load that ended last is the one sent last meets that condition |
| ListStoreAsync.SeparateLoadsKeepTheChain | apps/admin-ui/src/modules/admins/stores/admins.store.ts:22-97 | so if loads never overlap, the stack is the chain of issued cursors at every point |
| ListStoreAsync.StaleAnswerWins | apps/admin-ui/src/modules/admins/stores/admins.store.ts:69-72 | two overlapping searches can end with the term of one and the rows of the other, nothing loading |
| ListStoreAsync.DoubleNextRepeatsAPage | apps/admin-ui/src/modules/admins/stores/admins.store.ts:51-58 | witness for ChainIff: two Next clicked on a screen in order before the first answer push one cursor twice; with everything answered and the screen in step, the chain holds only if the server issues that cursor with its own page, and Previous asks for the page already shown |
| CustomersPaging.ChainIsPositions | apps/admin-ui/src/modules/customers/stores/customers.store.ts:16-67 | for every table the j-th cursor on the stack is the bound after the rows that the j pages before it passed, never fewer than 10 * j |
| CustomersPaging.ScreenIsASlice | apps/admin-ui/src/modules/customers/stores/customers.store.ts:16-67 | after a successful load, for every table, the screen shows ten rows of the filtered sorted list from a position not before 10k, where k is the page; it shows rows [10k, 10k+10), with hasPrev iff k > 0 and hasNext iff rows remain, if and only if none of the k page boundaries before it falls between two rows that the millisecond cursor cannot tell apart |
| CustomersPaging.EveryRunShowsASlice | apps/admin-ui/src/modules/customers/stores/customers.store.ts:16-87 | the same, under the same exact condition on the boundaries, for every run of completed actions from a fresh store, mutations and lost loads included |
| CustomersPaging.AllScreensAreSlicesIff | apps/admin-ui/src/modules/customers/stores/customers.store.ts:16-87 | every page that a search and any number of Next open shows its slice if and only if the listing is lossless: at the first boundary that skips a row, Next opens another part of the list |
| CustomersPaging.WholeTimesShowSlices | apps/admin-ui/src/modules/customers/stores/customers.store.ts:16-87 | with whole-millisecond creation times every page shows its slice |
| CustomersPaging.BusyMillisecondLosesACustomer | apps/admin-api/src/modules/customers/cursor.ts:3-10 | eleven customers created in eleven successive microseconds of one millisecond: the first page shows ten and offers Next, the second is empty and the last, so the eleventh customer is on no page |
| CustomersPaging.CursorsAdvance | apps/admin-api/src/modules/customers/customers.service.ts:44-57 | no page issues the cursor text that it was asked for with, whatever that text is |
| CustomersPaging.DoubleNextBreaksTheChain | apps/admin-ui/src/modules/customers/stores/customers.store.ts:51-58 | over every customers table, two Next clicked on a screen in order before the first answer break the chain of cursors |
| CustomersPaging.TurningIsAWalk | apps/admin-ui/src/modules/customers/stores/customers.store.ts:22-58 | with the table changed in any way between clicks, the pages that Next turns are a walk along nextCursor, and each screen shows the page that the walk reads |
| CustomersPaging.TurningDuringTraffic | apps/admin-ui/src/modules/customers/stores/customers.store.ts:22-58 | whatever requests others interleave between the clicks, the pages turned are strictly descending and show no customer twice, and at the end every customer that stayed listed was shown exactly once unless a cursor skipped it |
| Router.FindNearest | apps/broker/internal/infra/clients/implementations/fake_client.go:53-74 | the inner loop finds the nearest eligible stop, the first of equals, and -1 exactly when none is eligible |
| Router.NeverStuck | apps/broker/internal/infra/clients/implementations/fake_client.go:52-74 | while stops remain one is eligible, so the deadlock branch is unreachable |
| Router.FlattenShipments | apps/broker/internal/infra/clients/implementations/fake_client.go:31-44 | the list of stops is 2n blanks followed by each shipment's pickup and delivery |
| Router.LengthAdds | apps/broker/internal/infra/clients/implementations/fake_client.go:82-103 | the length of a path is the sum of the lengths of its parts, and that of one leg is the distance from its start to its end |
| Router.OptimizeSync | apps/broker/internal/infra/clients/implementations/fake_client.go:23-114 | fails only without vehicles; otherwise the appended steps are a route of nearest eligible stops over all stops and a last step at the end when one is given, and the total is the sum of the legs from the vehicle's start through every appended step |
| RouterOrder.RouteIsAPermutation | apps/broker/internal/infra/clients/implementations/fake_client.go:52-93 | a finished route visits every index exactly once, and its steps are a permutation of the stops |
| RouterOrder.PickupComesFirst | apps/broker/internal/infra/clients/implementations/fake_client.go:60-63 | every delivery comes after a pickup with the same shipment id |
| RouterOrder.OwnPickupComesFirst | apps/broker/internal/infra/clients/implementations/fake_client.go:60-80 | with distinct ids every delivery comes after its own pickup, for any number of blank stops |
| RouterOrder.OrderOfShipmentsIsIrrelevant | apps/broker/internal/infra/clients/implementations/fake_client.go:31-93 | if each choice of the route is a blank stop or strictly nearer than everything else available, every permutation of the shipments gives the same steps |
| RouterOrder.NoTiesIsDecided | apps/broker/internal/infra/clients/implementations/fake_client.go:52-74 | in particular, that is so when distinct available stops never tie |
| RouterOrder.OrderIsIrrelevantIff | apps/broker/internal/infra/clients/implementations/fake_client.go:31-93 | with distinct ids, every permutation of the shipments gives the same steps if and only if each choice is blank or strictly nearer than everything else available |
| RouterOrder.SharedPickupsMatter | apps/broker/internal/infra/clients/implementations/fake_client.go:31-93 | with distinct ids, when two shipments are picked up at one point, some permutation of the input gives other steps |
| RouterOrder.TiesFollowTheInput | apps/broker/internal/infra/clients/implementations/fake_client.go:65-69 | of two pickups at one point the one listed first is visited first |
| RouterOrder.BlanksAreVisited | apps/broker/internal/infra/clients/implementations/fake_client.go:31-93 | the appended steps of a finished route hold each blank stop of the list, so two for each shipment and none without shipments |
| RouterOrder.BlanksInOneGo | apps/broker/internal/infra/clients/implementations/fake_client.go:52-93 | when a point is at no distance from itself, nothing is visited between two blanks |
| Cnpj.CalcCheckDigit | apps/packages/contracts/src/customers.ts:17-28 | the loop's running weight is the closed form 2 + (length - 1 - i) mod 8, and the digit is that of the weighted sum |
| Cnpj.CheckDigitCongruence | apps/packages/contracts/src/customers.ts:26-27 | the check digit is the one digit that makes the weighted sum a multiple of 11, or 0 where ten would be needed |
| Cnpj.FirstSumSpelledOut | apps/packages/contracts/src/customers.ts:18-24 | the first sum weighs the digits by 5, 4, 3, 2, 9, 8, 7, 6, 5, 4, 3, 2 |
| Cnpj.SecondSumSpelledOut | apps/packages/contracts/src/customers.ts:18-24 | the second sum weighs them by 6, 5, 4, 3, 2, 9, 8, 7, 6, 5, 4, 3, 2 |
| Cnpj.PassesIff | apps/packages/contracts/src/customers.ts:17-30 | a number passes exactly when, for each check digit with weight 1, the sum is 0 modulo 11, or is 1 and the digit 0 |
| Cnpj.RepeatedIff | apps/packages/contracts/src/customers.ts:4 | the refused pattern is one digit fourteen times |
| Cnpj.KnownNumber | apps/packages/contracts/src/customers.ts:6-36 | 11.222.333/0001-81 is accepted, with its digits as the result |
| Cnpj.IsValidCnpj | apps/packages/contracts/src/customers.ts:6-31 | accepts exactly the 14-digit texts that are not one repeated digit and pass both equations |
| Cnpj.OneSuffixPasses | apps/packages/contracts/src/customers.ts:17-30 | every base of twelve digits has exactly one suffix that passes |
| Cnpj.OneWrongDigit | apps/packages/contracts/src/customers.ts:6-31 | an accepted number with one digit replaced is accepted if and only if it ends in 00, its two sums leave the remainders 0 and 1 or 1 and 0, and the digit changes by 9, -2 or by -9, 2 at position 0 or 8, or by 5, -6 or by -5, 6 at position 4 |
| Cnpj.UndetectedChanges | apps/packages/contracts/src/customers.ts:6-31 | each of the three positions has such a pair of accepted numbers |
| Cnpj.FormatKeepsDigits | apps/admin-ui/src/shared/format/cnpj.ts:4-12 | for every text, formatting keeps the digits, is idempotent, and changes nothing for the schema |
| Cnpj.StripEach | apps/packages/contracts/src/customers.ts:35 | stripping keeps each of the ten digits where it stands and drops every other character |
| Cnpj.MaskLayout | apps/admin-ui/src/shared/format/cnpj.ts:4-12 | a text with fourteen digits is formatted as 99.999.999/9999-99 with its digits in their order |
| Cnpj.InputUndoesFormat | apps/admin-ui/src/modules/customers/form.ts:13-21 | submitting a formatted identifier sends the digits of the text that was formatted, and the name as it is |
| DisableCustomer.Database.Commit | apps/broker/internal/infra/db/pg_tx_manager.go:44 | publishes the transaction's work and closes it, or fails: a failed commit closes it with or without publishing, a panic before the commit took effect leaves it open |
| DisableCustomer.Database.Rollback | apps/broker/internal/infra/db/pg_tx_manager.go:32-40 | drops the work of an open transaction and closes it, and leaves a closed one alone |
| DisableCustomer.Database.WithinTransaction | apps/broker/internal/infra/db/pg_tx_manager.go:20-45 | on every path whose begin succeeded the transaction is closed exactly once before the call ends, its work published if the function returned nil and the commit took effect and dropped in every other case, errors returned and panics passed on; no other transaction is touched |
| DisableCustomer.Database.DisableCustomer | apps/broker/internal/modules/customer/services.go:111-149 | the committed tables, the log of transactions and the ending are those of the function that DisableIsAtomic describes, and no transaction is left open |
| DisableCustomer.DisableIsAtomic | apps/broker/internal/modules/customer/services.go:111-149 | wherever it fails or panics, both writes are committed or neither; they are exactly when both statements ran and the commit took effect, the transaction is closed once, published or dropped to match, and the ending is that of the first step that does not run, NotFound exactly when the lookup ran and found no row |
| DisableCustomer.BodyEndingIsPassedOn | apps/broker/internal/infra/db/pg_tx_manager.go:27-44 | for any function run inside the transaction, its error comes back as it was and its panic goes on, with nothing committed |
| DisableCustomer.RunsKeepKeysSafe | apps/broker/internal/modules/customer/stores.go:56-70 | over any run of calls no deleted customer has an unrevoked key, deleted customers stay deleted with all keys revoked, and every transaction that began is closed exactly once |
| DisableCustomer.NilIsForGood | apps/broker/internal/modules/customer/services.go:111-149 | a customer whose call returned nil is deleted with all keys revoked after whatever calls follow |
| DisableCustomer.BodyNeedsTransaction | apps/broker/pkg/dbutils/db_utils.go:44-52 | the function that runs inside the transaction ends well exactly when it has one and both statements run, and then has made both writes and nothing else; without one it stops at the first write |

## Left out

- CursorCodec.CursorRoundTrip: ids are uuids or other texts that JSON writes without escapes; decodeCursor is modelled on canonical base64url, on one flat JSON object of unescaped strings without white space, and on dates in the form of toISOString. On other texts the model answers None where Node, which decodes leniently, might still find a cursor.
- CursorCodec.IdRoundTrip: the uuid column also reads upper case, braces and other groupings, which no cursor of this service contains.
- ListStore.Store.Mutate: a mutation that reached the server while its response was lost is not modelled; the store then keeps its cursors for the earlier table until the next refetch.
- Timestamps outside the range of a Date (about 271821 BC to 275760 AD), for which toISOString throws.
- AdminsService.list and toOutput: the same codec and page size as CustomersService.list over AdminsRepository.List, and the row's members as text; the model answers with the row.
- The admins screen's store: the same class as the customers store, with block and unblock as mutations.
- Concurrent AdminsService requests, and linearizability of concurrent updates: the check-then-write code does not promise them.
- Rounding of floating-point distances and sums, the trigonometry of haversineDistance, and NaN.
- Broker CreateCustomer, API-key generation and lookup, and keys created while a customer is being disabled.
- The Google Cloud client, providers, vehicles and constraints: network mapping and plain storage.
- Controllers, HTTP error mapping, Vue components, and the ky services beyond their two list parameters.
