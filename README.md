# Team raffle — a Dafny model

A team's members each claim one numbered slot ("raffle number") on a form
reached through a personal code. A facilitator's report shows who is still
pending. The facilitator marks members present or absent, opens the raffle,
draws the prizes and can reset the team. The draw works like this:

- sort the team's prizes in ascending order;
- drop the lowest ones, one per absent member;
- shuffle the rest and deal them out, in order, to the claimed numbers;
- give every absent member a fixed lowest prize of 5000.

This project models the logic of the two components that do this: the
report (`Report`) and the member's form (`Form`).

- The document store is a value: one map per collection, keyed by team
  name (`Interfaces.Store`). A missing document is read as the defaults the
  component's getters return.
- Each store transaction body is one sequential step on a snapshot of a
  document. It either gives the document to write back or the error that
  aborts it.
- The two transaction bodies that overwrite an array element in place are
  methods on arrays proved equal to specification functions:
  - the form's claim (`Form.ClaimTransaction`);
  - the report's presence flip (`Report.SetMemberStatus`).
- The draw's in-place `splice` is a method on a small array class
  (`Report.PrizeArray.Splice`).
- The shuffle is a nondeterministic choice of any permutation.

Modules:

- `Interfaces`: the record types, `undefined` (`Maybe`), thrown errors
  (`Result`) and the store.
- `Seqs`: JavaScript's `filter`, `find` and `findIndex` on sequences, with
  their facts.
- `Sorting`: lodash `sortBy` on numbers, and the uniqueness of the sorted
  permutation.
- `Commas`: `numberWithCommas`. It is a position-by-position model of its
  regular expression, proved equal to right-to-left digit grouping.
- `Report`: the pending list, the counts, the Submit gate, the draw, the
  presence flip, open and reset.
- `Form`: the load-time derivations, `checkOptionAvailable`, the claim, the
  submit flow and the view precedence.

Behaviour of the code that the model states outright:

- **The pool goes to the first claimed numbers, whoever holds them.** The
  draw deals the pool, in order, to the first |pool| claimed numbers in the
  order of the selection. An absent member who holds one of those numbers
  takes a drawn prize as well as the absentee prize, and a present member
  holding a later claimed number then has no entry at all
  (`Report.AbsentClaimantExample` is one such draw).
- **Too many prizes for the claimed numbers.** If the draw pool is longer
  than the list of claimed numbers, reading `selected.value` throws and
  nothing is written (`Report.Allocation`, `AllocationError`). If there are
  fewer prizes than claimed numbers, the last claimed numbers are silently
  left without a prize.
- **The presence flip is addressed by name.** It finds the member whose
  `name` equals the `code` argument (the report passes the name). If no
  member matches, `members[-1]` is undefined, the transaction throws, and
  the error is only logged.
- **The claim does not check for a second slot.** It does not check that
  the member already holds a number (`Form.ClaimAllowsSecondNumber`). Only
  the form's view keeps such a member away (`Form.SelectionFormGuard`).
- **Reset is three separate writes.** Writing an `undefined` seed is
  rejected, which ends the reset. So a missing team seed leaves the
  selection already overwritten (`Report.ResetClicked`).
- **A failed claim does not re-read the store.** It filters the form's own
  list again (`Form.FailedClaimKeepsStaleList`).

## Model

| member | source | states |
|---|---|---|
| Interfaces.Toggled | src/components/report.tsx:429 | the new status is "absent" exactly when the status passed in is "present", and otherwise "present"; it depends on the shown status, not the stored one |
| Seqs.Find | src/components/report.tsx:274-276 | `find` is undefined exactly when no element satisfies the predicate; otherwise it is the element at the first index that does |
| Seqs.FindIndex | src/components/report.tsx:423 | `findIndex` is -1 exactly when no element satisfies the predicate; otherwise it is the first satisfying index |
| Seqs.Filter | src/components/report.tsx:272-278 | `filter` keeps only elements of the input that satisfy the predicate and is no longer than the input |
| Seqs.FilterUpdateCount | src/components/report.tsx:351-357 | replacing one element changes a filtered count by exactly the change in whether that element passes |
| Sorting.Sort | src/components/report.tsx:362 | `sortBy` on numbers: the result is ascending and a permutation of the input |
| Sorting.SortIsTheSortedPermutation | src/components/report.tsx:362 | any ascending permutation of the prizes equals `Sort` of them |
| Sorting.SortedUnique | src/components/report.tsx:362 | two ascending sequences holding the same multiset are equal |
| Commas.NatToString | src/components/report.tsx:260 | `x.toString()` of a natural number is a non-empty string of digits with no leading zero; it starts with '0' exactly when the number is 0 |
| Commas.NatToStringValue | src/components/report.tsx:260 | the decimal string of a natural number reads back as that number |
| Commas.ReplaceDigitsIsGrouping | src/components/report.tsx:260 | on a digit string, replacing every match of `\B(?=(\d{3})+(?!\d))` with "," gives the right-to-left grouping of the digits in threes |
| Commas.NumberWithCommasIsGrouping | src/components/report.tsx:259-261 | `numberWithCommas(x)` is the grouping of the digits of the absolute value, behind a "-" for a negative number |
| Commas.NumberWithCommasNat | src/components/report.tsx:259-261 | for a prize (a natural number): the output starts with a digit, removing the commas gives `x.toString()`, and every comma is followed by exactly three digits and then the end or another comma |
| Commas.GroupThousandsStrip | src/components/report.tsx:260 | removing the commas from the grouping gives back the digits |
| Commas.GroupThousandsGroups | src/components/report.tsx:260 | every comma of the grouping is followed by a group of exactly three digits |
| Report.Pending | src/components/report.tsx:272-278 | the pending list is no longer than the roster, and each pending member is a roster member whose name is no raffle number's value |
| Report.AbsentMembersCount | src/components/report.tsx:351-353 | the absent count is at most the roster length; it is 0 exactly when nobody is absent, and the roster length exactly when everybody is |
| Report.DoneMembersCount | src/components/report.tsx:355-357 | the claimed count is at most the number of raffle numbers; it is 0 exactly when every number is free, and the full count exactly when none is |
| Report.PendingExactly | src/components/report.tsx:272-278 | a roster member is pending exactly when no raffle number's value is its name; the pending list holds each such member as often as the roster does, and nothing else |
| Report.PendingInRosterOrder | src/components/report.tsx:314-320 | the pending list keeps roster order: the pending members of a prefix, then those of the rest |
| Report.PendingEmpty | src/components/report.tsx:294-300 | nobody is pending exactly when every member's name is the value of some raffle number |
| Report.SubmitWillShowMeaning | src/components/report.tsx:469-471 | Submit is shown exactly when every member holds a number, or the absent count plus the claimed count equals the number of members |
| Report.DrawPool | src/components/report.tsx:362-365 | the draw pool is ascending; its length is \|prizes\| minus the absent count, or 0; it is a sub-multiset of the prizes; exactly min(absent count, \|prizes\|) prizes are removed; every removed prize is at most every remaining one |
| Report.DropLowest | src/components/report.tsx:362-365 | cutting the first k elements off an ascending sequence removes exactly those k, each at most every element that remains, and what remains is ascending |
| Report.DrawPoolOfAnySortedArrangement | src/components/report.tsx:362-365 | the pool is what remains of any ascending arrangement of the prizes once the lowest absent-count elements are cut off |
| Report.PrizeArray.Splice | src/components/report.tsx:364 | in place: returns the elements from `start` up to `start + deleteCount` (clamped to the length), and the array afterwards is its old contents without them; the same array object is kept |
| Report.ShiftDown | src/components/report.tsx:364 | in place: the array's first cells become its cells before `s` followed by its cells from `e` to `n` |
| Report.SubmitClicked | src/components/report.tsx:359-387 | the prizes are read from the team's prizes document (none when it is missing); the shuffled prizes are a permutation of the draw pool; the results are the allocation of that shuffle; on success the results document holds them and nothing else in the store changes, and after an error the store is unchanged |
| Report.Allocation | src/components/report.tsx:368-383 | the draw throws exactly when the shuffled pool is longer than the list of claimed numbers; otherwise it yields one entry per shuffled prize plus one per absent member |
| Report.AllocationEntries | src/components/report.tsx:368-383 | entry i gives shuffled prize i to claimed number i and its claimant, in the options' order; after them come the absent members in roster order, each with option "-" and prize 5000 |
| Report.AllocationPrizes | src/components/report.tsx:359-383 | the prizes awarded are, as a multiset, the draw pool plus one lowest prize (5000) per absent member |
| Report.AllocationCoversClaims | src/components/report.tsx:368-375 | when the pool is as long as the claimed list, every claimed number appears once, in order, with its claimant |
| Report.SubmitGateAllocates | src/components/report.tsx:469-471 | with one prize per member and distinct, non-empty names, Submit is shown only when the draw cannot throw |
| Report.DistinctClaimantsFit | src/components/report.tsx:355-357 | members with distinct, non-empty names who all hold a number need at least as many claimed numbers as there are members |
| Report.AbsentClaimantExample | src/components/report.tsx:359-383 | concrete case: an absent member who claimed a number gets a drawn prize and the absentee prize, while the other claimant gets none, yet Submit is shown |
| Report.StatusUpdate | src/components/report.tsx:414-437 | the flip aborts with TeamDocumentMissing exactly when the team document is missing, and with MemberNotFound exactly when it exists but no member's name matches; it succeeds exactly when the document exists and some member's name matches, and then only the first matching member changes, to its own name and code with the flipped status, and `teamname`, `isOpen`, the length and every other member are kept |
| Report.SetMemberStatus | src/components/report.tsx:420-436 | the in-place transaction body writes exactly the document `StatusUpdate` describes |
| Report.SetMemberStatusInStore | src/components/report.tsx:410-441 | a flip that throws (missing team document, no member of that name) leaves the store unchanged, since the error is only logged; otherwise only the team's document is replaced, by the one `StatusUpdate` gives |
| Report.StatusUpdateIsReplacement | src/components/report.tsx:423-430 | the flipped team is the old team with one member replaced |
| Report.FlipTwiceRestores | src/components/report.tsx:423-436 | flipping with the shown status, then flipping back with the new one, restores the team document |
| Report.FlipCounts | src/components/report.tsx:351-353 | a flip with the shown status moves the absent count by one in the matching direction and keeps the number of pending members |
| Report.OpenRaffle | src/components/report.tsx:399-408 | opening writes the team document with its members (none if it was missing), the team name and `isOpen` true; every other document is unchanged |
| Report.OpenRaffleIdempotent | src/components/report.tsx:399-408 | opening twice is opening once, and the pending list is unchanged |
| Report.ResetClicked | src/components/report.tsx:443-457 | a missing selection seed changes nothing; a missing team seed leaves only the selection overwritten; otherwise the selection and team documents are the seeds and the results document is deleted, and nothing else changes |
| Report.ResetRestoresInitialState | src/components/report.tsx:443-457 | after a complete reset from fresh seeds, no number is claimed, nobody is absent, the raffle is closed, there are no results, and other teams are untouched |
| Report.ResetIdempotent | src/components/report.tsx:443-454 | resetting again after a complete reset changes nothing |
| Form.MemberName | src/components/form.tsx:155-157 | the name of the first member whose code matches, or "" when none does |
| Form.FreeOptions | src/components/form.tsx:160-162 | every number listed is free and comes from the selection |
| Form.FreeOptionsExactly | src/components/form.tsx:160-163 | the free list holds every free number as often as the selection does, and nothing else, in the selection's order |
| Form.ChosenLabel | src/components/form.tsx:165-168 | undefined exactly when no number carries the member's name; otherwise the label of the first one that does |
| Form.FetchData | src/components/form.tsx:146-169 | after loading: the team name is set, loading is over, the open flag is the team document's, the name is the member lookup, only free numbers are offered, and a number is recorded exactly when some number carries the member's name |
| Form.TeamDocumentModified | src/components/form.tsx:137-144 | a change to the team document sets the open flag from it and nothing else |
| Form.UserNotFoundMeaning | src/components/form.tsx:178 | the user is not found exactly when no member has the code, or the first member with it has an empty name |
| Form.CheckOptionAvailable | src/components/form.tsx:180-188 | true exactly when some number has the label and the first such number is free; false when no number has the label |
| Form.Claim | src/components/form.tsx:206-229 | the claim throws SelectionMissing exactly when the selection document is missing, and OptionNotAvailable exactly when it exists but `checkOptionAvailable` fails; it succeeds exactly when the document exists and the label is available, and then only the first number with the label changes, to that label and the member's name, and `teamname` is the component's team name; the length and every other number are kept |
| Form.ClaimTransaction | src/components/form.tsx:207-225 | the in-place transaction body writes exactly the document `Claim` describes |
| Form.ClaimKeepsOthers | src/components/form.tsx:212-225 | a claim never overwrites a number already held, keeps every label, and under a non-empty name takes exactly one free number |
| Form.ClaimThenUnavailable | src/components/form.tsx:213-228 | once a number is claimed under a non-empty name, a second claim on it throws "Option not available" |
| Form.ClaimAllowsSecondNumber | src/components/form.tsx:206-229 | concrete case: the transaction lets the same member claim two numbers |
| Form.HandleChange | src/components/form.tsx:190-195 | choosing a number records it and hides the error, and nothing else changes |
| Form.SubmitClicked | src/components/form.tsx:197-239 | without a chosen number nothing changes; otherwise the error is shown exactly when the claim throws; on success the number is recorded and the team's selection document is the claim's result; on an error the store is unchanged and the form's list is refiltered to its free numbers; other teams' documents and the other collections are never touched |
| Form.SubmitWithoutChoice | src/components/form.tsx:198-200 | submitting with no number chosen changes neither the state nor the store |
| Form.FailedClaimKeepsStaleList | src/components/form.tsx:232-237 | a failed claim leaves the store as it was and shows the error; the list offered is the form's own list filtered again, so after loading it is unchanged |
| Form.SubmitSuccessShowsChosen | src/components/form.tsx:206-231 | a successful claim from the selection form records the number, switches to the "already chosen" view, and the store gives the member's name to a number |
| Form.ChooseThenSubmit | src/components/form.tsx:190-239 | from the selection form, choosing a free number and submitting it records the number, shows "already chosen", and the store gives that number the member's name |
| Form.RacingClaims | src/components/form.tsx:206-237 | two members submitting the same free number one after the other: the first gets it, the second sees the error, and the second submit leaves the store as the first left it |
| Form.ContentView | src/components/form.tsx:342 | nothing is shown exactly while loading |
| Form.ContentPrecedence | src/components/form.tsx:291-302 | once loaded: not found first, then not open, then already chosen, then the selection form, each exactly under its own condition with the earlier ones failing |
| Form.SelectionFormGuard | src/components/form.tsx:291-302 | after loading, the selection form is shown only to a known member of an open raffle whose name no number carries |
| Form.ChosenNumberMatchesReport | src/components/form.tsx:165-168 | the form records a number for the member exactly when the report counts the member's name as taken |
| Form.OpenedRaffleOffersForm | src/components/report.tsx:399-408 | once the raffle is opened, a known member with a non-empty name who holds no number is shown the selection form |

## Left out

- Document store I/O (`getDoc`, `setDoc`, `deleteDoc`, the fetch helpers in both components) is not modelled as calls: documents are values, a write is a new store value, and a missing document is read as the getters' defaults (`Interfaces.TeamMembersOf`, `TeamOptionsOf`, `TeamPrizesOf`).
- The report's listeners and its `fetchData` are not modelled as state updates. What they derive is the pending list, which is `Report.Pending`.
- Transaction retries and concurrency are not modelled. Each transaction body is one atomic step on a snapshot, and racing clients are taken one after the other (`Form.RacingClaims`).
- Report.SubmitClicked: the shuffle is any permutation; the statistical fairness of lodash `shuffle` is not stated.
- The prizes' display formatting after the draw and on load (`ModifiedRaffleResults`) is not modelled. Only `numberWithCommas` itself is.
- Commas.NumberWithCommas: prizes are modelled as unbounded integers printed with their exact decimal digits. A JavaScript number is a double: fractions are not modelled; above `Number.MAX_SAFE_INTEGER` (2^53 - 1) not every integer exists and `toString` prints the shortest digits that round-trip (`2**60` prints as 1152921504606847000, the model gives 1152921504606846976); from 10^21 on it uses exponent notation. So the model agrees with the source only for integers of magnitude at most 2^53 - 1.
- Report.ResetClicked: the seeds are given as values. The bundled JSON seed files and their contents are not part of this model.
- React rendering is not modelled: tables, column definitions, styles, headers, the background component, and the Express static server (`server.js`).
- Console logging, including the logging of the presence flip's error, is not modelled.
- The commented-out seed loader in the form is not modelled.
