# Timeshare points ledger — a Dafny model

This project models the points ledger of a small Flask application. In that application a
group of members shares a timeshare's yearly points. It covers:

- **Use years.** The year whose points a date draws on: the year itself from September, the
  year before until August.
- **Allocation rows.** One regular row and one banked row per member and use year.
- **Stays.** Each stay has member shares. Booking a stay deducts every share from the regular
  rows of the check-in's use year. A shortfall aborts the request with nothing committed.
- **Banking.** Regular points move to the banked row of the same year.
- **Loans.** A loan moves regular points from lender to borrower. Repaying moves them back,
  once.
- **Transfers.** A transfer moves regular points and records a signed `point_balance` row,
  lower member id first.
- **The balances page.** It sums those rows per pair and year, builds a debt graph per year,
  and collapses chains `a -> b -> c` into `a -> c` until none is left. It then lists the
  remaining debts sorted by year and by amount, largest first. The collapse as coded can
  write a member owing itself and then crash (see Findings). The page's loops, the route and
  the `Consolidate` lemmas are therefore proved for the corrected collapse. The page as coded
  is modelled beside it, with what it lists whenever it does not crash.
- **Undo.** The undo button reverts the last logged action that is not itself an undo. That
  action must be a banking, a booking or a stay creation. The undo then logs exactly one
  "Undid action: …" entry.

The modules follow the program's structure:

| module | file | what it holds |
|---|---|---|
| `Common` | common.dfy | ids, `Option`, `Result`, the error cases the routes answer with, `Min` |
| `Calendar` | calendar.dfy | dates and `get_use_year` |
| `Text` | text.dfy | Python's `str(int)`, `int(str)`, `str.split(sep)[k]` and prefix tests |
| `Allocations` | allocations.dfy | the `point_allocation` table as a map from (member, year, kind) to points, and the point moves of the routes |
| `Booking` | booking.dfy | stay shares: the share-sum check of `add_stay`, the deduction loop of a booking, the refund loops of an undo |
| `Activity` | activity.dfy | `activity_log` entries, their description texts, and which entry an undo picks |
| `Balances` | balances.dfy | `point_balance` rows and the grouping query of the balances page |
| `DebtGraph` | debt_graph.dfy | the per-year debt graph: chain search, collapsing, settling |
| `Consolidation` | consolidation.dfy | the whole balances page as functions, and the page as written (see Findings) |
| `Ledger` | ledger.dfy | all tables as one value, and every route as a function from tables to new tables or an error |
| `BalancesPage` | balances_page.dfy | the page's loops as methods, each proved equal to its function |
| `Routes` | routes.dfy | class `PointsLedger`: the tables as fields, one method per route |

Each route method of `Routes.PointsLedger` is proved to leave the fields as the matching
`Ledger` function computes, and to answer what it answers. On an error the fields stay
exactly as before. This mirrors the application, which commits the session only on
success. The properties of the routes are stated and proved once, about the `Ledger`
functions and the functions under them.

The net position of a member in a use year is used throughout the balances page. It is what
the member owes, minus what the member is owed. As the page reads the rows, a member who
transfers points to another is listed as owing the recipient (see the last item under
"Left out").

## Model

| member | source | states |
|---|---|---|
| Calendar.UseYear | main.py:230-237 | the use year is the date's year or the year before, and it is the date's year exactly when the month is September or later |
| Calendar.UseYearWindow | main.py:230-237 | a date has use year `y` exactly when it lies between 1 September of `y` and 31 August of `y + 1` |
| Calendar.UseYearMonotone | main.py:230-237 | a later date never has an earlier use year |
| Allocations.MoveRegular | main.py:621-648 | a move of regular points succeeds exactly when the giver's row for the year exists and holds at least the amount |
| Allocations.MoveRegularEffect | main.py:621-648 | a move takes the amount off the giver's row and adds it to the recipient's row, creating that row at 0 when missing; no other row changes and the two rows' sum is conserved |
| Allocations.MoveRegularNonNegative | main.py:621-648 | a move of a non-negative amount keeps every row non-negative |
| Allocations.MoveRegularBack | main.py:555-583 | moving the same amount back succeeds and restores every row, apart from a recipient row the first move created, which remains at 0 |
| Allocations.BankMove | main.py:404-408 | banking succeeds exactly when the regular row exists and holds at least the amount |
| Allocations.BankMoveEffect | main.py:395-408 | banking moves the amount from the regular to the banked row of the same year, creating the banked row at 0; the two rows' sum is conserved and no other row changes |
| Allocations.BankMoveNonNegative | main.py:404-408 | banking a non-negative amount keeps every row non-negative |
| Allocations.UnbankMove | main.py:846-868 | returning banked points succeeds exactly when the banked row holds at least the amount |
| Allocations.BankThenUnbank | main.py:846-868 | unbanking what was banked restores every row, apart from a banked row the banking created, which remains at 0 |
| Allocations.UnbankOtherYear | main.py:832-868 | an undo run in another use year than the banking's takes the points from that year's banked row and leaves the banked year's rows untouched: the points do not return where they were banked |
| Allocations.Credit | main.py:889-898 | crediting a row adds the amount to it, creating it at 0 when missing, and changes no other row |
| Allocations.WithRow | main.py:395-402 | adding a missing row at 0 changes no row's available points |
| Booking.DeductShares | main.py:249-269 | a booking charges every regular row of the use year exactly the sum of that member's shares and changes no other row, or fails with a shortfall in that year |
| Booking.DeductSharesOutcome | main.py:253-266 | the deduction fails exactly when some share finds its row missing or below the share, after the earlier shares were taken; the error names the first such share's member, amount and available points |
| Booking.DeductSharesElsewhere | main.py:253-269 | a booking never touches a banked row or a row of another use year |
| Booking.DeductSharesNonNegative | main.py:261-269 | a successful booking keeps every row non-negative |
| Booking.RefundShares | main.py:880-898 | undoing a booking gives every member back the sum of their shares, creating missing rows at 0 |
| Booking.RefundExistingShares | main.py:905-916 | undoing a booked stay's creation credits only rows that exist and creates none |
| Booking.BookThenRefund | main.py:870-898 | refunding what a booking deducted restores the allocation table exactly |
| Booking.ValidateAgreesWithBooking | main.py:121-130 | for a positive amount, the 2024 validation helper agrees with a one-share booking in 2024, and they disagree for a non-positive amount on a missing row |
| Booking.RowsOfAll | main.py:155-177 | the stay rows can be made exactly when every share input carries the keys its branch reads |
| Booking.NewStayShares | main.py:147-177 | a new stay is refused with the share-mismatch error whenever the declared points do not add up to the cost, and otherwise refused only for a share input missing a key |
| Booking.NewStaySharesAddUp | main.py:147-153 | when every guest share declares what its members pay, the rows of an accepted stay add up to its cost |
| Booking.RowsTotal | main.py:148-177 | under the same condition, the rows' total is the declared total |
| Activity.ShareDescriptions | main.py:274 | one text per share, available exactly when every share's member exists |
| Activity.UndoEntry | main.py:929-935 | the undo entry has type "undo" and a description starting with "Undid action: " and the undone description |
| Activity.ParseBankedAmount | main.py:850 | a description without " banked " gives no amount (the `IndexError`), and an amount read back always comes from digits in the description |
| Activity.BankedDescriptionRoundTrip | main.py:850 | parsing the amount back out of a banking description gives the amount banked, when the member's name neither contains " banked " nor ends in " banked" |
| Activity.BankedDescriptionNameMisread | main.py:850 | for a member named "A banked 7" the amount reads back as 7, whatever was banked |
| Activity.BankedDescriptionNameClash | main.py:850 | for a member named "Bob banked" the amount cannot be parsed back, whatever it was |
| Activity.LastNonUndo | main.py:810-816 | the last entry that is not an undo, after which only undo entries follow, and none exactly when every entry is an undo |
| Activity.SelectUndo | main.py:810-827 | an undo picks that last entry; it fails with "No actions to undo" exactly when every entry is an undo, with "already undone" when an undo entry starts with the matching prefix, and it goes ahead exactly when there is a last entry that no undo entry names |
| Activity.SecondUndoRefused | main.py:818-825 | after an undo is logged, the next undo of the same log is refused as already undone |
| Activity.RepeatedActionRefused | main.py:818-825 | an action repeated later with the same description cannot be undone once an earlier one has been |
| Text.ParseIntToString | main.py:850 | reading back `str(n)` with `int` gives `n` |
| Text.SplitAtFirst | main.py:850 | `split(sep)` splits at the first occurrence of the separator |
| Balances.TransferRow | main.py:650-663 | the row of a transfer stores the lower id first and is between the giver and the recipient of that year |
| Balances.TransferRowPosition | main.py:650-657 | as the page reads the signed row, the giver owes the recipient the amount: the giver's position rises by it and the recipient's falls by it, and a transfer to oneself counts for nothing |
| Balances.GroupTotals | main.py:687-696 | the grouped query lists only non-zero sums |
| Balances.GroupTotalsProps | main.py:687-696 | the grouped rows have distinct (pair, year) keys, each from some input row, keep the canonical order, and preserve every member's position per year |
| Balances.GroupTotalsSums | main.py:687-696 | each listed line's points are the sum of the points of the rows with its (pair, year) key, and every key whose rows sum to something other than 0 is listed |
| Balances.GroupSum | main.py:687-695 | grouping keeps every key's sum |
| Balances.NonZeroSum | main.py:696 | dropping the lines that sum to 0 keeps every key's sum |
| DebtGraph.Debit | main.py:735-740 | taking an amount off an entry fails exactly when the entry is missing; otherwise it lowers that debt and the total by the amount and leaves the other entries alone |
| DebtGraph.AddDebt | main.py:743-748 | adding to a debt raises that debt and the total by the amount, creating the entry when missing |
| DebtGraph.SetDebt | main.py:715-718 | building sets the entry of the pair and adds no other creditor |
| DebtGraph.FirstChainSpec | main.py:727-733 | the search finds a chain with a positive `min`, and finds none exactly when no creditor owes anything |
| DebtGraph.CollapseSelfLoop | main.py:735-748 | on a chain `d -> d -> d` the first decrement deletes the entry the second one needs, so collapsing crashes |
| DebtGraph.CollapseLinks | main.py:735-748 | on any other chain collapsing succeeds, keeps the graph well-formed and every position, and lowers the total by `min` |
| DebtGraph.CollapseProps | main.py:735-748 | collapsing a chain as written crashes exactly on a chain of one member owing itself; otherwise it keeps the members and every position and lowers the total by `min` |
| DebtGraph.CancelProps | main.py:735-748 | the corrected collapse keeps the graph free of self-debts, keeps every position, and lowers the total by `min` (twice `min` when the chain returns to its debtor) |
| DebtGraph.CancelAgrees | main.py:735-748 | apart from a chain back to its own debtor, the corrected collapse is the collapse as written |
| DebtGraph.SettleAsWrittenProps | main.py:724-757 | when the loop as written does not crash, it ends in a settled, well-formed graph over the same members in which every position is as before |
| DebtGraph.SettleProps | main.py:724-757 | the corrected loop ends in a settled graph over the same members in which no member both owes and is owed, and every position is as before |
| DebtGraph.DropSelfDebtsProps | main.py:715-718 | dropping the self-debts that self-transfers write keeps every position |
| Consolidation.YearsOf | main.py:702-705 | every year of the grouped rows, each exactly once, and no other year |
| Consolidation.BuildProps | main.py:702-718 | a year's graph gives each member the position the year's rows give it, and links only pairs that occur in a row of that year |
| Consolidation.BuildWellFormed | main.py:702-718 | building yields a graph in which each debtor lists each creditor at most once, with a positive amount |
| Consolidation.EmitAll | main.py:760-768 | every listed debt is positive, of the year, and an entry of its debtor |
| Consolidation.SortBalances | main.py:771 | the listing sorted by year, larger amounts first, as a permutation of its input |
| Consolidation.SortPos | main.py:771 | sorting changes no member's position |
| Consolidation.YearBalances | main.py:722-768 | (corrected page) a year's listing holds only that year's positive debts |
| Consolidation.YearBalancesSettled | main.py:724-757 | (corrected page) in a year's listing no creditor is also a debtor |
| Consolidation.EmitYears | main.py:722-768 | (corrected page) every listed debt comes from its own year's listing |
| Consolidation.Consolidate | main.py:684-771 | (corrected page) the page's listing is sorted by year and descending amount |
| Consolidation.ConsolidatePosition | main.py:684-771 | (corrected page) in every use year, each member's net position in the listing equals its net position in the `point_balance` rows |
| Consolidation.ConsolidateFrom | main.py:760-768 | (corrected page) every listed debt comes from its year's settled graph |
| Consolidation.ConsolidatePositive | main.py:762 | (corrected page) only positive amounts are listed |
| Consolidation.ConsolidateSettled | main.py:724-757 | (corrected page) within a year no listed creditor is also a listed debtor, so no one owes themselves |
| Consolidation.YearBalancesAsWritten | main.py:722-768 | (as written) a year's listing, when it does not crash, holds only that year's positive debts |
| Consolidation.EmitYearsAsWritten | main.py:722-768 | (as written) the years' listings, when none crashes, hold only positive debts of the listed years |
| Consolidation.ConsolidateAsWrittenListing | main.py:760-771 | (as written) when the page does not crash, its listing is sorted by year and descending amount and holds only positive amounts |
| Consolidation.ConsolidateAsWrittenPosition | main.py:684-771 | (as written) when the page does not crash on canonical rows, each member's net position in every use year is what the rows give |
| Consolidation.CyclePasses | main.py:727-748 | on three transfers around a cycle, the passes as written collapse to a member owing itself, and the next collapse crashes |
| Consolidation.CycleCrashes | main.py:735-740 | the page as written fails with `KeyError` on three transfers of 10 points around a cycle |
| Consolidation.CycleSettles | main.py:684-771 | the corrected page lists nothing for those rows |
| Consolidation.SelfTransferCrashes | main.py:715-740 | the page as written fails with `KeyError` on a transfer from a member to itself |
| Consolidation.SelfTransferSettles | main.py:684-771 | the corrected page lists nothing for that row |
| Ledger.NewStay | main.py:132-183 | the stay is stored under the next id with the rows its shares yield, exactly when the shares add up to the cost and carry their keys; it leaves the other stays, allocations, loans, balances and log unchanged |
| Ledger.NewStayAddsUp | main.py:147-153 | a stored stay's rows add up to its cost when the guest shares declare what their members pay |
| Ledger.StatusUpdate | main.py:239-289 | a missing stay is not found and another status is invalid; it succeeds exactly when the status is planned or booked, a booking's deduction succeeds and every share's member exists; a failed deduction's shortfall is the answer; a booking stores the deduction's table, charging every row by the stay's shares (a booked stay is charged again); planning charges nothing; on success the status is stored and exactly one entry is logged |
| Ledger.Banking | main.py:374-430 | a missing member is not found; banking succeeds exactly when the member's regular row exists and holds the amount, and otherwise fails as invalid; the regular row loses the amount and the banked row (created at 0) gains it; no other row changes and the description the undo parses is logged |
| Ledger.Lending | main.py:478-545 | a loan needs both members and a lender row holding the amount; the points move, an active loan is recorded under the next id and one entry is logged |
| Ledger.Repayment | main.py:547-599 | a missing loan is not found and a repaid one refused; it succeeds exactly when the loan is active, the borrower's row exists and holds the amount and both members exist; a short borrower row answers insufficient points; the points move back, the loan becomes repaid and one entry is logged |
| Ledger.Transfer | main.py:608-682 | a transfer needs both members and a giver row holding the amount; the points move, the canonical signed row is appended and one entry is logged |
| Ledger.UndoChanges | main.py:827-927 | only bankings, bookings and stay creations are undone; any other type is refused with its name; a banking is undone exactly when its member exists, today's use year has a banked row and the parsed amount fits in it, and the amount goes back to the regular row; a booking is undone exactly when the stay is still booked (else not booked): every share is refunded and the stay planned; a creation is undone exactly when the stay exists: it is deleted and, if booked, its shares are refunded on existing rows; the log, loans and balances stay alone |
| Ledger.Undo | main.py:807-942 | the selection's error is returned as is, and otherwise the undo of the selected entry's; it succeeds exactly when both do, and its result is that undo's tables with exactly one undo entry naming the undone entry appended |
| Ledger.AppendedEntryIsLast | main.py:810-825 | a newly logged action not undone before is the one the next undo picks |
| Ledger.BookThenUndo | main.py:870-898 | booking a stay and undoing restores the allocation table exactly and leaves the stay planned |
| Ledger.BankThenUndo | main.py:827-868 | banking and undoing in the same use year restores every row, apart from a banked row the banking created, which remains at 0 |
| Ledger.LendThenRepay | main.py:547-583 | repaying a new loan restores every row apart from a borrower row it created at 0, and a second repayment is refused as already repaid |
| Ledger.UndoTwice | main.py:818-825 | right after an undo, a second undo is refused as already undone |
| Ledger.TransferShiftsPositions | main.py:648-666 | a transfer of `p` raises the giver's consolidated position for that year by `p` and lowers the recipient's by `p`; nothing else moves |
| Ledger.StatusUpdateNonNegative | main.py:261-269 | a booking keeps non-negative rows non-negative |
| Ledger.BankingNonNegative | main.py:404-408 | banking a non-negative amount keeps rows non-negative |
| Ledger.LendingNonNegative | main.py:508-527 | lending a non-negative amount keeps rows non-negative |
| Ledger.RepaymentNonNegative | main.py:561-582 | repaying a non-negative loan keeps rows non-negative |
| Ledger.TransferNonNegative | main.py:627-648 | transferring a non-negative amount keeps rows non-negative |
| Ledger.NegativeTransferDrainsRecipient | main.py:627-648 | a transfer of -5 between members holding 0 passes the check and leaves the recipient at -5 |
| BalancesPage.BuildGraphs | main.py:700-718 | the loop over the grouped rows yields each year once, in order, with that year's graph |
| BalancesPage.FindChain | main.py:727-733 | the three nested loops return the first chain with a positive `min`, or none |
| BalancesPage.SettleGraph | main.py:724-757 | (corrected collapse) the `while True` loop ends with the graph `DebtGraph.Settle` gives, which `DebtGraph.SettleProps` shows settled with every position kept |
| BalancesPage.EmitDebtsOf | main.py:761-768 | the inner listing loop yields a member's positive debts in order |
| BalancesPage.EmitBalances | main.py:760-768 | the listing loop yields every member's positive debts, debtor by debtor |
| BalancesPage.ConsolidateBalances | main.py:684-771 | (corrected page) the page's loops compute `Consolidation.Consolidate` |
| Routes.MovePoints | main.py:621-648 | the point move of a transfer or loan, as specified by the move function |
| Routes.Refund | main.py:880-898 | the refund loop of a booking's undo computes the refund function |
| Routes.RefundExisting | main.py:905-916 | the refund loop of a creation's undo computes its refund function |
| Routes.CollectShares | main.py:155-177 | the share loop yields the rows of every share in order, or fails at the first share missing a field, as `Booking.RowsOfAll` specifies |
| Routes.BankRows | main.py:395-408 | the row updates of a banking compute `Allocations.BankMove`: fail when the regular row is missing or short, else move the points to the banked row, created with 0 if missing |
| Routes.UnbankRows | main.py:857-868 | the row updates of undoing a banking compute `Allocations.UnbankMove`: fail when the banked row holds too few points, else move them back to the regular row, created with 0 if missing |
| Routes.PointsLedger.AddStay | main.py:132-183 | answers and commits what `Ledger.NewStay` says; on an error no field changes |
| Routes.PointsLedger.UpdateStayStatus | main.py:239-289 | the deduction loop commits what `Ledger.StatusUpdate` says; on a shortfall no field changes |
| Routes.PointsLedger.BankPoints | main.py:376-430 | commits what `Ledger.Banking` says |
| Routes.PointsLedger.CreateLoan | main.py:478-545 | commits what `Ledger.Lending` says |
| Routes.PointsLedger.RepayLoan | main.py:547-599 | commits what `Ledger.Repayment` says |
| Routes.PointsLedger.TransferPoints | main.py:608-682 | commits what `Ledger.Transfer` says |
| Routes.PointsLedger.UndoChangesOf | main.py:827-927 | the branch of the undo commits what `Ledger.UndoChanges` says, per branch as stated there |
| Routes.PointsLedger.UndoBanking | main.py:827-868 | the `points_banked` branch commits what `Ledger.UndoChanges` says for it: the amount parsed from the description moves from the banked row of today's use year back to the regular row |
| Routes.PointsLedger.UndoBooking | main.py:870-898 | the `stay_booked` branch commits what `Ledger.UndoChanges` says for it: the shares are refunded and the stay planned, or nothing changes when the stay is not booked |
| Routes.PointsLedger.UndoStayCreation | main.py:900-923 | the `stay_created` branch commits what `Ledger.UndoChanges` says for it: the stay is deleted, with a booked stay's shares refunded on existing rows |
| Routes.PointsLedger.UndoLastAction | main.py:807-942 | commits what `Ledger.Undo` says: the selected entry's undo plus one undo entry, or nothing on an error |
| Routes.PointsLedger.ViewPointBalances | main.py:684-771 | (corrected page) lists `Consolidation.Consolidate` of the stored rows |

## Left out

- HTTP, HTML and the database are not modelled. The Flask routes, templates, flash messages,
  request parsing and SQL queries become method parameters, fields and map lookups.
- Error texts are not modelled. An error answer is an `Error` case. HTTP 404 and the
  "not found" texts are all `NotFound`. Exceptions the routes catch become a `KeyError`
  or `NotFound` answer, with nothing committed.
- A missing key in `add_stay`'s input raises `KeyError`; the model reports it as
  `MissingField`. The guest lookup and `additional_guests` are not modelled: guests hold no
  points.
- Clocks are parameters. `date.today()` is the `today` argument of the undo. The log
  timestamps are opaque strings, `now`.
- Uniqueness of allocation rows is assumed. `.first()` on `point_allocation` returns at most
  one row per (member, year, kind), so the table is a map. Duplicate rows are not modelled.
- SQL group order is assumed. The model takes the groups in order of first appearance, and
  the members and years of the page in that order. Python's dicts keep insertion order, so
  the page's order then follows.
- The page keys its graph by `Member` objects; the model keys it by member ids, which
  identify the same members. A `point_balance` row whose member was deleted (a `KeyError`
  at main.py:707) is not modelled.
- Consolidation.SortBalances: the sort is proved sorted and a permutation, not stable.
  Python's sort is stable, so the page's order among equal keys is not fully stated.
- Text.ParseInt: only ASCII digits, single underscores between digits (read as Python reads
  them), an optional sign and ASCII whitespace are read. Python's `int()` also accepts other
  Unicode digits and whitespace; a member name is the only text that could bring those into
  a parsed amount.
- Activity.SelectUndo: the "already undone" test is modelled as a plain prefix test.
  SQLite's `LIKE` also treats `%` and `_` in a description as wildcards and ignores ASCII
  case.
- The `stay_created` branch of the undo is modelled, but no route writes that type here.
  The stay creation route at main.py:1038 logs `create_stay`, which the undo refuses.
  That route, stay editing and deletion, the guests pages, `calculate_points_used`, the
  read-only pages and the files under `static/` are not part of this model.
- Ids are not reused. The model hands out increasing stay and loan ids. Reuse of an id
  after a rolled-back request is not modelled.
- The shortfall message reads the member's name, `stay_member.member.name`. If the member
  row were missing, that would raise instead. The model reports the shortfall either way.
- Negative amounts are not checked by the routes. The model lets them through as the code
  does; `Ledger.NegativeTransferDrainsRecipient` shows the effect. The non-negativity
  lemmas assume non-negative amounts.
- The graph's dicts are updated in place in the page, and they are whole map values
  reassigned here. Aliasing between the page's dicts is not modelled; the page has none.
- The model follows the code where the comments disagree about the sign of a
  `point_balance` row. The comment at main.py:80 says a positive amount means the lower id
  owes the higher one. The comments where `transfer_points` writes the row (main.py:651-654)
  agree with it: the recipient owes the giver. The page reads the sign the other way at
  main.py:715-718. So the page lists the giver of a transfer as owing the recipient. The
  model keeps that reading, and `Ledger.TransferShiftsPositions` states it.

## Findings

| source | as written | input that shows it | evidently intended | confidence | as-written member | corrected member |
|---|---|---|---|---|---|---|
| main.py:735-748 | collapsing a chain `a -> b -> a` writes the self-debt `a -> a`; on the input in the next column, the next pass finds `a -> a -> a`, deletes the entry in the first decrement and crashes with `KeyError` in the second, so the page fails (with unequal amounts the self-debt may instead be collapsed away by a later chain `a -> a -> b`, and the page settles) | three transfers of 10 points in 2024: member 1 to 2, 2 to 3, 3 to 1 (the same happens for one transfer from a member to itself, which the build turns into a self-debt at main.py:715-718) | a chain back to its debtor cancels both debts, a member never owes itself, and the page lists the settled debts (nothing, for these rows) | high, not executed | Consolidation.ConsolidateAsWritten (Consolidation.CycleCrashes, Consolidation.SelfTransferCrashes, Consolidation.ConsolidateAsWrittenPosition, DebtGraph.SettleAsWrittenProps) | Consolidation.Consolidate (Consolidation.CycleSettles, Consolidation.SelfTransferSettles, Consolidation.ConsolidatePosition, Consolidation.ConsolidateSettled; its loops BalancesPage.ConsolidateBalances and the route Routes.PointsLedger.ViewPointBalances) |
