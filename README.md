# Pet adoption bookkeeping, modelled in Dafny

This project models the off-chain side of a web3 pet-adoption site. That side consists of:

- a `PetInfo` table of pets;
- the server's `GET`/`POST` handlers over that table, which apply for a pet, commit a new owner and record that a pet's NFT was minted;
- the arithmetic the admin page uses to decide when a pending adoption may be settled, including the live countdown shown for it;
- the ways the home page and the user page split the fetched pets into lists.

The model is organised into these modules:

- `PetModel` (`pet_model.dfy`): the pet record, the admin page's view of it and the status enumeration.
- `Rows` (`rows.dfy`): the row each table update writes, as pure functions.
  - `AdoptRow` models `adopt`.
  - `CommitRow` models `updateOwner`.
  - `MintRow` models `updateNFT`.
- `Store` (`store.dfy`): the table as the class `PetTable`. Its methods read a row and write the new row back. Its functions are the three read queries.
- `Api` (`api.dfy`): the two handlers.
  - Branch selection is a pure function of the request.
  - `Get` answers a query, and `Post` runs the selected branch against the table.
  - Signed-message recovery and the JSON web token functions are the `Crypto` parameter.
- `Deadline` (`deadline.dfy`): covers:
  - the remaining-seconds formula and the eligibility test;
  - the one-second countdown step;
  - the countdown start condition;
  - the remaining-time text.
- `AdminBoard` (`admin_board.dfy`): the admin page's state as the class `AdminPage`. It holds:
  - the pending views;
  - the `timers` record from pet id to interval handle;
  - the intervals still running;
  - the sign-in flags.
- `Home` (`home.dfy`): the home page's three-way split by status and the sections it renders.
- `UserPage` (`user_page.dfy`): covers:
  - the user page's split into the user's adopted pets and pending applications;
  - the token-id loop;
  - the IPFS gateway rewrite;
  - the handling of the mint's `Transfer` logs;
  - the list update after `updateNFT`.
- Helper modules:
  - `Strings` (`strings.dfy`): decimal text, ASCII lower-casing and substring search.
  - `Lists` (`lists.dfy`): the order-keeping filter the loops compute.
  - `Wrappers` (`wrappers.dfy`): `Option` and `Result`.

The clock is the integer parameter `now`, in whole seconds. A failed table write is a `Result` failure that the handler turns into a 400 reply. An exception the handler does not catch is its own outcome: `GetUnhandled` or `PostUnhandled`.

Where the code and its comments disagree, the model follows the code. `MAX_WAIT_TIME` is 100 seconds, even though its comment says five minutes.

## Model

| member | source | states |
|---|---|---|
| PetModel.StatusText | src/app/util/index.ts:58-62 | each status maps to its stored text (`adoptable`, `adopted`, `pending`) |
| PetModel.StatusTextInjective | src/app/util/index.ts:58-62 | distinct statuses have distinct stored texts, so filtering by text is filtering by status |
| Rows.AdoptRow | src/app/api/route.ts:54-80 | fails exactly when the address has already applied or exactly three have applied (naming which); otherwise the applicants become the old list with the address appended, an Adoptable pet becomes Pending and any other status is kept, a nonzero start time is kept and 0 is replaced by `now`, and no other field changes |
| Rows.AdoptKeepsRoster | src/app/api/route.ts:60-70 | from a roster of at most three distinct addresses, a successful application leaves at most three distinct addresses |
| Rows.AdoptAboveCapacityStillAdmits | src/app/api/route.ts:63-65 | the capacity guard is `== 3`, so a roster already above three would still admit a new address |
| Rows.CommitRow | src/app/api/route.ts:81-101 | fails exactly when the new owner equals the current one, compared exactly; otherwise sets the owner, Adopted, an empty roster and start time 0, leaving every other field (`hasNFT` included) as it was |
| Rows.CommitTwiceFails | src/app/api/route.ts:84-86 | committing the same new owner a second time is the same-owner failure |
| Rows.MintRow | src/app/api/route.ts:102-114 | the row with `hasNFT` set and every other field unchanged |
| Rows.MintIdempotent | src/app/api/route.ts:102-114 | setting the mint flag twice gives the row of setting it once |
| Rows.StatusNeverBackward | src/app/api/route.ts:71-91 | neither an application nor a commit moves a status backwards in the order adoptable, pending, adopted |
| Rows.AdoptAllKeepsRoster | src/app/api/route.ts:60-70 | no sequence of applications breaks the at-most-three, no-duplicates roster invariant |
| Rows.AdoptAllKeepsStartTime | src/app/api/route.ts:72 | once the start time is nonzero, every later application keeps it |
| Rows.FirstAdmittedSetsStartTime | src/app/api/route.ts:72 | after a sequence of applications the start time is the time of the first admitted one |
| Rows.RejectedIsSkipped | src/app/api/route.ts:57-65 | a rejected application has no effect on the outcome of later ones |
| Store.PetTable.Adopt | src/app/api/route.ts:54-80 | a missing row is a failure with nothing written; otherwise the result is `AdoptRow` of the stored row, written back only on success, every other row unchanged, and the roster invariant of the whole table preserved |
| Store.PetTable.UpdateOwner | src/app/api/route.ts:81-101 | a missing row is a failure; otherwise the result is `CommitRow` of the stored row, written back only on success, every other row unchanged |
| Store.PetTable.UpdateNFT | src/app/api/route.ts:102-114 | a missing row is a failure; otherwise the stored row is replaced by `MintRow` of it and returned, every other row unchanged |
| Store.PetTable.PetById | src/app/api/route.ts:28-32 | the row stored under the id, present exactly when the table has one |
| Store.PetTable.PetsByStatus | src/app/api/route.ts:33-37 | distinct rows of the table, every one with the given status text, and every row with that text listed |
| Store.PetTable.PetsByCreation | src/app/api/route.ts:20-25 | every row of the table exactly once, in non-decreasing creation time |
| Store.SortByCreation | src/app/api/route.ts:21 | the stored ids reordered: the same ids, each once, in non-decreasing creation time |
| Store.SelectByStatus | src/app/api/route.ts:34 | the ids, each once, of exactly the rows with the given status text |
| Api.SelectGet | src/app/api/route.ts:39-51 | a nonzero parsed id selects the lookup by id; otherwise a non-empty status selects the status filter; otherwise the full list |
| Api.Get | src/app/api/route.ts:38-52 | a lookup by id answers that row, or the uncaught failure when there is none; a status query answers distinct rows with exactly that status, all of them, and the handler's second filter passes the query's list through in its order; the full list answers every row in creation order |
| Api.BearerToken | src/app/api/route.ts:160 | present exactly when there is a header containing a space; then it is the header's second space-separated field: the text after the first space up to the next space or the end |
| Api.BearerRoundTrip | src/app/api/route.ts:160 | the header `Bearer <token>` yields the token back |
| Api.SelectPost | src/app/api/route.ts:120-168 | `auth`, `adopt` and `updateNFT` each take exactly their own branch; any other action is turned away for a missing or empty token, goes to the uncaught failure exactly when the token verifier cannot read a present token, and reaches the token-checked branches (`updateOwner` and the empty reply) exactly when the token reads as the body's address up to case; `updateOwner` runs only for that action |
| Api.OpenActionsNeedNoToken | src/app/api/route.ts:120-158 | `auth`, `adopt` and `updateNFT` each take their own branch, and changing the header or the token verifier changes nothing |
| Api.MissingTokenRejected | src/app/api/route.ts:160-163 | any other action without a token, or with an empty one, is turned away before the verifier runs |
| Api.EmptyStoredTokenRejected | src/app/api/route.ts:160-163 | the header `Bearer ` with nothing after it counts as a missing token |
| Api.TokenAddressDecides | src/app/api/route.ts:164-168 | a readable token is rejected exactly when its address differs from the body's address after lower-casing; otherwise `updateOwner` runs, or the empty reply follows |
| Api.CaseOnlyDifferencePasses | src/app/api/route.ts:165 | a token address differing from the body's only in letter case is accepted |
| Api.StatusOf | src/app/api/route.ts:120-178 | the status code of every reply `Post` gives: 401 exactly for a missing or mismatched token; 400 exactly for a bad signature or a failed write; 200 otherwise |
| Api.WriteReply | src/app/api/route.ts:142-147 | a write inside its `try` always answers: 200 with the written row exactly when the write succeeded, otherwise 400 with the branch's message |
| Api.Post | src/app/api/route.ts:115-179 | each branch's full reply: the token on a valid signature, 400 with no write on an invalid one, and the uncaught failure when signature recovery throws; the row written by each table method, or 400 with its message; the two 401 messages; the uncaught failure of an unreadable token; `{}` for any other action. Only the three write branches change the table, and the roster invariant is kept; every reply's status code is the one `StatusOf` gives for its branch, signature check and write |
| Deadline.RemainingSeconds | src/app/admin/page.tsx:38-41 | never negative; 0 from `start + 100` on; before that, exactly the seconds left until `start + 100` |
| Deadline.CanHandle | src/app/admin/page.tsx:94-102 | a pet may be settled exactly when three or more have applied, or when the remaining seconds were already 0 a second earlier |
| Deadline.CanHandleMonotone | src/app/admin/page.tsx:94-102 | once a pet may be settled it stays so as the clock advances |
| Deadline.ZeroRemainingYetNotEligible | src/app/admin/page.tsx:38-102 | with fewer than three applicants, at exactly `start + 100` the remaining seconds are 0 but the pet is not yet eligible; one second later it is |
| Deadline.PendingView | src/app/admin/page.tsx:79-83 | the view of a fetched row carries its eligibility and remaining seconds at `now` |
| Deadline.ShouldStartTimer | src/app/admin/page.tsx:89 | a countdown starts exactly for a defined counter strictly between 0 and 3600; the truthiness test adds nothing to the test for a positive value |
| Deadline.TimerStartsWhileWindowRuns | src/app/admin/page.tsx:89-91 | for a pet whose window has opened, a countdown starts exactly while the window is still running |
| Deadline.TickView | src/app/admin/page.tsx:51-63 | only the entry of the pet with a defined counter changes: the counter drops by one with a floor at 0, and eligibility is set on reaching 0 |
| Deadline.TickReachesZero | src/app/admin/page.tsx:53-56 | the interval clears itself exactly when this tick leaves an entry of its pet with a defined counter at 0 |
| Deadline.TickStep | src/app/admin/page.tsx:51-63 | the list keeps its length, each entry takes the tick step, and entries of other pets are unchanged |
| Deadline.CountdownMatchesClock | src/app/admin/page.tsx:38-63 | started from the remaining seconds at `now`, `k` ticks give the remaining seconds at `now + k`; the entry becomes eligible exactly when a tick reached 0 |
| Deadline.RemainingTime | src/app/admin/page.tsx:306-323 | the text holds a colon exactly when less than an hour is left; from an hour on it is a `more than` text |
| Deadline.ShortRemainingTime | src/app/admin/page.tsx:306-323 | under an hour the text is the minutes, a colon and the zero-padded seconds |
| Deadline.ClockRoundTrip | src/app/admin/page.tsx:306-323 | under an hour the text reads back as exactly the remaining seconds, with seconds as two digits below 60 |
| Deadline.PaddedSeconds | src/app/admin/page.tsx:322 | the seconds part is always two digits and reads back as the seconds |
| Deadline.LongRemainingTime | src/app/admin/page.tsx:306-321 | from an hour on the text is `more than N month`, `day` or `hour`, the largest unit that fits winning, with months of 30 days and N the whole count of that unit |
| Deadline.DeadlineText | src/app/admin/page.tsx:370 | a card shows its deadline line exactly for a defined counter above 0, and the line is that counter's remaining-time text |
| Deadline.DeadlineTextMeaning | src/app/admin/page.tsx:370 | for a pet whose window has opened, the card's deadline line is shown exactly while the window runs, and it reads back as the seconds left |
| Deadline.ThreeApplicantsMakeEligible | src/app/api/route.ts:63-72 | three distinct applications to an adoptable pet make it Pending, with a full roster, and eligible at once |
| Deadline.LoneApplicantEligibleAfterWindow | src/app/admin/page.tsx:94-102 | a single application at a nonzero time `t` to a pet with no applicants and no start time makes it eligible exactly after `t + 100` |
| AdminBoard.PendingViews | src/app/admin/page.tsx:79-83 | one view per fetched row, in order, each the row's view at `now` |
| AdminBoard.CountdownIds | src/app/admin/page.tsx:87-91 | the ids of exactly the fetched rows that pass the start condition |
| AdminBoard.CountdownIdsOfOpenWindows | src/app/admin/page.tsx:79-91 | when every row's window has opened, the countdowns started are those of exactly the pets whose window still runs |
| AdminBoard.AdminPage.constructor | src/app/admin/page.tsx:15-29 | the page starts with no pending pets, no timers, not signed in and the modal closed |
| AdminBoard.AdminPage.StartTimer | src/app/admin/page.tsx:43-68 | the pet's previous interval is cleared; a fresh handle is issued, recorded for the pet and counts it down; other timers are unchanged |
| AdminBoard.AdminPage.LoadPending | src/app/admin/page.tsx:79-92 | the views are the rows' views at `now`; exactly the pets the start condition admits get a fresh, running interval for themselves, and their earlier interval no longer runs; the records and intervals of other pets are kept; no other interval appears |
| AdminBoard.AdminPage.Tick | src/app/admin/page.tsx:50-64 | a firing of a running interval applies the tick step for its pet, and the interval clears itself when that pet's counter reaches 0; a cleared interval changes nothing |
| AdminBoard.AdminPage.HandleSign | src/app/admin/page.tsx:254-282 | an accepted sign-in marks the page signed in; the modal is closed either way |
| AdminBoard.AdminPage.HandleApprove | src/app/admin/page.tsx:283-304 | without a sign-in only the sign modal opens; otherwise the pet's interval is cleared and its entry removed from `timers`, every other entry kept, and the pet is no longer being processed |
| Lists.KeepAppend | src/app/page.tsx:35-43 | filtering a concatenation is the concatenation of the filtered parts, so kept elements stay in input order |
| Lists.KeepMembership | src/app/page.tsx:35-43 | an element is kept exactly when it occurs in the input and passes the test |
| Lists.KeepUnchanged | src/app/api/route.ts:48 | a filter whose test every element passes returns its input unchanged |
| Lists.KeepPartition | src/app/page.tsx:35-43 | three tests of which each element passes exactly one split the input: together the kept lists are the input as a multiset |
| Home.FilterPetList | src/app/page.tsx:31-47 | the lists are the input's Adopted pets, its Pending pets and the rest, each in input order; together they are the input as a multiset and their lengths add up to its length |
| Home.FilterPartitions | src/app/page.tsx:35-43 | every input pet lands in exactly one of the three lists |
| Home.FilterStatuses | src/app/page.tsx:36-42 | each list holds only input pets of its status: Adopted, Pending, and Adoptable for the rest |
| Home.Sections | src/app/page.tsx:67-100 | the Adoptable section always comes first; the Pending and Adopted sections appear exactly when their lists are non-empty; no section twice |
| UserPage.LoadUserInfo | src/app/user/page.tsx:66-83 | with no address the shown lists stay as they were; otherwise the adopted list is the input's pets that are Adopted and owned by the address, and the pending list the Pending pets the address applied for, both in input order |
| UserPage.UserListsMeaning | src/app/user/page.tsx:78-82 | a pet is listed as adopted exactly when it is Adopted and owned by the address, as pending exactly when it is Pending with the address among its applicants, and never both |
| UserPage.OwnerComparedExactly | src/app/user/page.tsx:78 | an owner written differently from the address, even only in letter case, is not the user |
| UserPage.CollectTokenIds | src/app/user/page.tsx:38-47 | exactly `balance` token ids, the one at each index in index order |
| UserPage.ResolveUri | src/app/user/page.tsx:57 | an `ipfs://` URI becomes `https://ipfs.io/ipfs/` followed by the rest of the URI; any other URI is returned unchanged |
| UserPage.ResolveUriIdempotent | src/app/user/page.tsx:57 | rewriting a rewritten URI changes nothing |
| UserPage.TransferCalls | src/app/user/page.tsx:149-158 | every `updatePetNFT` call is for the pet, and there are no more calls than logs |
| UserPage.TransferCallsCount | src/app/user/page.tsx:149-158 | one call per log carrying the pet's token id, and none for other logs |
| UserPage.DuplicateLogTwoCalls | src/app/user/page.tsx:150-156 | a batch with two matching logs causes two calls, because `unwatch` does not stop the current batch |
| UserPage.WatchCalls | src/app/user/page.tsx:145-159 | every call the subscription makes is for the pet |
| UserPage.WatchSkipsQuietBatch | src/app/user/page.tsx:149-158 | a batch without a log for the pet makes no call and leaves the subscription on |
| UserPage.WatchStopsAfterMatch | src/app/user/page.tsx:145-159 | after any number of batches without a match, the batch holding the first match makes one call per matching log and no later batch is looked at |
| UserPage.ReplaceById | src/app/user/page.tsx:119 | same length; entries with the pet's id become the returned row, all others unchanged |
| UserPage.AfterUpdateNft | src/app/user/page.tsx:117-120 | the length and every entry of another pet are unchanged; on a 200 reply every entry of the pet becomes the returned row; on any other reply the list is unchanged |
| UserPage.ReplaceByIdIdempotent | src/app/user/page.tsx:117-120 | replacing with the row returned for the same id twice is the same as once, and afterwards every entry with that id is that row |
| Strings.NatToString | src/app/admin/page.tsx:314-322 | the decimal text of a number: digits only, non-empty, one digit exactly below 10 |
| Strings.NatToStringNoLeadingZero | src/app/admin/page.tsx:314-322 | the decimal text starts with `0` only for the number 0 |
| Strings.ParseNatToString | src/app/admin/page.tsx:322 | the decimal text of a number reads back as the number |
| Strings.LowerCaseIdempotent | src/app/api/route.ts:165 | lower-casing a lower-cased address changes nothing |
| Strings.IndexOf | src/app/user/page.tsx:57 | the first position where the pattern occurs, or none when it occurs nowhere |
| Strings.ReplaceFirstAtStart | src/app/user/page.tsx:57 | for a string that starts with the pattern, replacing its first occurrence swaps that prefix |

## Left out

- The database client, `fetch`, `Request` and `Response` are not modelled. The table is a map from id to row, with a creation time per row and the storage order. A reply is a status code with a payload.
- Database errors (other than a missing row) are not modelled, and neither are the row's server-side defaults.
- Signed-message recovery (EIP-191) and `jwt.sign`/`jwt.verify` with their one-hour expiry (RFC 7519) are foreign cryptography.
  - They are the function fields of `Crypto`.
  - Signature recovery is a partial function: `None` stands for a `verifyMessage` that throws. That call at src/app/api/route.ts:123 is outside any `try`, so the outcome is `PostUnhandled`.
  - A token that `jwt.verify` rejects is the uncaught `PostUnhandled`, not a 401: the call at src/app/api/route.ts:164 is outside any `try`.
- `parseInt` of the `id` parameter is not modelled. The query carries its result: `None` for NaN, which selects no single row.
- Request fields that may be missing (`undefined`) are not modelled. Every body field is a string or an integer, and a missing `address` on the token check is not represented.
- `toLocaleLowerCase` is modelled as ASCII letter folding. Locale-specific case mappings are not modelled.
- The chain calls are not modelled: `handleSendTx`, `applyForWinner`, `handleGetNFT` and the `updateOwner` request the admin page sends. They are asynchronous transactions and event subscriptions.
  - The `RecordPet` and `confirmWinner` handlers are not modelled.
  - The `Transfer` handler is modelled only as the calls its log batches cause. The model deliberately states no exactly-once delivery, because the code provides none.
- Concurrency is not modelled. Requests are handled one after the other, so the race between two concurrent `adopt` calls on the same row is not represented.
- React rendering, hooks and state setters are not modelled; neither are `setInterval` timing, the cleanup effect that clears all intervals, `localStorage` and `Date.now()`.
  - The page's state is the fields of `AdminPage`, and each firing of an interval is a call to `Tick`.
  - The `initialSeconds` argument of `startTimer` is unused by the code and not modelled.
- `AdminBoard.AdminPage.HandleApprove`: the settlement transaction inside it is not modelled. That transaction catches its own errors, so the model always goes on to clear the pet's timer.
- AdminBoard.AdminPage.HandleApprove and AdminBoard.AdminPage.LoadPending: the cleanup effect at src/app/admin/page.tsx:331-336 is not modelled. It runs whenever `timers` changes and clears every interval of the previous `timers`. So in the page, each approval (and each later reload) also stops the other pets' countdowns, while these contracts say their intervals keep running.
- Store.PetTable.PetsByCreation: the order among rows with equal creation times is not stated, because the database does not fix it. Rows with no stored order clause come back in the table's storage order.
- The pages' loading flags, alerts, the pet detail page, the UI components, the layout, the wallet configuration and the secrets upload script are not part of this model. They are display or network I/O only.
