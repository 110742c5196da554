# Budget and expense tracking backend: a Dafny model

This project models the core of a budgeting backend.

- Users record income and expense transactions against categories.
- Budgets cap what a user may spend in one category over a date range.
- Creating an expense draws on the budgets that cover it.

The repository holds two divergent copies of each handler, `services/*` and `routes/*`. The model keeps both, one Dafny module per source file:

| module | models |
|---|---|
| `Requests` | request bodies, the JavaScript truthiness tests, the error kinds of the 400/500 answers |
| `Text` | `split`/`join` on one character, ASCII `toLowerCase`, `includes`, string `<=` |
| `Dates` | the `yyyy/mm/dd` stamp of a new transaction and the unpadded `d/m/y -> y/m/d` swap |
| `Storage` | the relational store as a `Database` class: category map, budget and transaction tables in store order, auto-increment ids |
| `Ledger` | which budgets cover an expense, covered totals, the duplicate-budget key |
| `TransactionServices` | services/TransactionServices.js: create, edit and delete a transaction; the draw on **every** covering budget for the full amount |
| `TransactionRoutes` | routes/Transactions.js: create and edit a transaction; the **spill-over** draw that empties budgets until one absorbs the rest |
| `BudgetServices` | services/BudgetServices.js: create, edit and delete a budget |
| `BudgetRoutes` | routes/Budgets.js: create and edit a budget, with the end date built from the start date |
| `FinancialReports` | routes/FinancialReports.js: the monthly report and its net amount |

Each create, edit and delete handler is a module-level method that takes the store `db: Database`, may change it (`modifies db`), and returns `Ok(value)` or `Err(failure)`. The one exception is `FinancialReports.GetReportForAMonth`: it only reads the store, so it has no `modifies` clause and returns a bare `Report`. The store operations the handlers call (`InsertBudget`, `ReplaceBudget`, `RemoveTransaction`, ...) are the methods of the `Database` class, and they update its tables in place.

- The two draw loops are `while` loops over the budget table. Each is proved equal to a recursive function: `DrawEvery` for the services copy and `Spill` for the routes copy.
- The lemmas about those functions state what each draw does:
  - when it succeeds;
  - which budgets it touches and by how much;
  - what it leaves behind when it fails.
- The net-amount `forEach` is a loop proved equal to a recursive sum.

What the draw does, and does not do:

- **Neither copy picks a single first-fit budget.**
  - The services copy decrements every covering budget by the full amount and fails at the first short one. The decrements made before the failure stay (`TransactionServices.DrawEveryStopsAtFirstShort`).
  - The routes copy spreads the amount over several budgets. When no covering budget holds a negative `leftAmount` and they hold too little in total, it fails with every covering budget emptied (`TransactionRoutes.SpillShortEmptiesAll`). So, with one covering budget holding 300, an expense of 400 fails and leaves that budget at 0. A negative `leftAmount` can be stored, through `editBudget` or a negative budget `amount`. Then a short total no longer implies failure: with covering budgets of 5 and -10 in store order, an expense of 3 is absorbed by the first, although the total is -5. The two outcome shapes still hold for every table, negative rows included: a failed expense has emptied every covering budget (`TransactionRoutes.SpillFailureEmptiesAll`), and a paid one was paid by a first absorbing budget, as `SpillStopsAt` describes (`TransactionRoutes.SpillPaidStops`).
- **Nothing does an atomic conditional decrement or a rollback.** The code issues plain sequential updates, so the model keeps the partial updates of the failure paths.
- **Nothing keeps `0 <= leftAmount <= amount`**, because `editBudget` stores any truthy `leftAmount` as given. The model proves what the code does keep: the spill-over never drives a budget below zero (`TransactionRoutes.SpillKeepsNonNegative`), and creating a budget keeps the duplicate key unique (`BudgetServices.CreateBudget`).

## Model

| member | source | states |
|---|---|---|
| Requests.TruthyNumber | services/TransactionServices.js:7 | `!!x` for a number: present and not 0 |
| Requests.TruthyText | services/TransactionServices.js:7 | `!!x` for a string: present and not empty |
| Requests.RequiredPresent | services/TransactionServices.js:7-9 | amount, type, userId and name are all truthy; routes/Transactions.js:12-14 makes the same test |
| Requests.AcceptableTransaction | services/TransactionServices.js:7-21 | the required fields are truthy, the type is `expense` or `income`, and an expense has a truthy category name; routes/Transactions.js:12-23 makes the same tests |
| Requests.AcceptableBudget | services/BudgetServices.js:8-10 | amount, start date, end date and category name are all truthy; routes/Budgets.js:13 makes the same test |
| Requests.AcceptableBudgetEdit | services/BudgetServices.js:108-110 | amount, start date, end date, category name and leftAmount are all truthy, so leftAmount 0 is refused; routes/Budgets.js:112 makes the same test |
| Text.LexLe | services/TransactionServices.js:52-53 | the store's string `<=`: character by character, by character code, a proper prefix first |
| Text.Contains | routes/FinancialReports.js:15 | the store's `contains` filter: the pattern stands somewhere in the string |
| Text.Split | services/TransactionServices.js:26 | `split('/')` gives at least one part, no part holds the separator, and joining the parts gives the input back |
| Text.SplitOfJoin | services/BudgetServices.js:12-13 | splitting a join of separator-free parts gives those parts back |
| Text.SplitThree | services/BudgetServices.js:12-13 | `a/b/c` with separator-free fields splits into exactly `[a, b, c]` |
| Text.ToLower | services/TransactionServices.js:13 | lower-casing keeps the length, leaves no upper-case ASCII letter, and changes only upper-case letters, each to its lower-case form |
| Text.ToLowerIdempotent | services/TransactionServices.js:13 | lower-casing twice is lower-casing once |
| Text.MiddleFieldMatch | routes/FinancialReports.js:15 | `a/b/c` with separator-free fields contains `/x/` if and only if `x` is the middle field |
| Text.LexLeReflexive | services/TransactionServices.js:52-53 | the string `<=` of the date filters is reflexive |
| Text.LexLeAntisymmetric | services/TransactionServices.js:52-53 | two strings each `<=` the other are equal |
| Text.LexLeTransitive | services/TransactionServices.js:52-53 | the string `<=` is transitive |
| Text.LexLeTotal | services/TransactionServices.js:52-53 | any two strings are ordered one way or the other |
| Text.LexLeCommonPrefix | services/TransactionServices.js:52-53 | a common prefix does not decide the order: the remainders do |
| Text.LexLeDecidedByPrefix | services/TransactionServices.js:52-53 | equal-length prefixes that differ decide the order alone, whatever follows |
| Dates.NatToString | services/TransactionServices.js:25 | `toString()` gives decimal digits, one digit exactly below 10, and no leading zero |
| Dates.NatToStringValue | services/TransactionServices.js:25 | reading back the digits of `n` gives `n` |
| Dates.Pad2 | services/TransactionServices.js:25 | `padStart(2, '0')` gives digits whose value is `n`, two of them when `n < 100` |
| Dates.Field | services/BudgetServices.js:12-13 | a destructured field of a split: the part at that position, or `"undefined"` past the end |
| Dates.SwapDate | services/BudgetServices.js:12-16 | a three-field date comes back with its first and third fields exchanged and the same length, so no padding is added |
| Dates.SwapDateOfFields | services/BudgetServices.js:12-13 | `a/b/c` swaps to `c/b/a` |
| Dates.SwapDateInvolution | services/BudgetServices.js:12-16 | swapping a three-field date twice gives it back |
| Dates.StampDate | services/TransactionServices.js:24-27 | a new transaction is stamped `year/pad2(month)/pad2(day)`, which splits into exactly those three fields |
| Storage.IndexOfKey | services/TransactionServices.js:190-193 | the store finds the row with a given id, or reports that no row has it |
| Storage.RemoveAtKey | services/TransactionServices.js:205 | deleting the row at an id keeps exactly the rows with another id, and ids stay distinct |
| Storage.Database.InsertBudget | services/BudgetServices.js:40-49 | `budget.create` appends one row with the next id and changes nothing else |
| Storage.Database.ReplaceBudget | services/TransactionServices.js:65-68 | `budget.update` replaces one row in place and changes nothing else |
| Storage.Database.RemoveBudget | services/BudgetServices.js:137 | `budget.delete` removes one row and keeps every row with another id |
| Storage.Database.InsertTransaction | services/TransactionServices.js:78-80 | `transaction.create` appends one row with the next id and changes nothing else |
| Storage.Database.ReplaceTransaction | services/TransactionServices.js:190-193 | `transaction.update` replaces one row in place and changes nothing else |
| Storage.Database.RemoveTransaction | services/TransactionServices.js:205 | `transaction.delete` removes one row and keeps every row with another id |
| Ledger.Covers | services/TransactionServices.js:48-55 | the `findMany` filter: same user, same category, `startDate <= date <= endDate` as strings; routes/Transactions.js:60-71 uses the same filter |
| Ledger.AnyCovers | services/TransactionServices.js:57-59 | `budgets.length !== 0`: some budget covers the expense; routes/Transactions.js:73-75 makes the same test |
| Ledger.CoveredLeft | routes/Transactions.js:79-101 | the sum of leftAmount over the covering budgets, the total the spill-over draws on |
| Ledger.KeyTaken | services/BudgetServices.js:27-38 | the duplicate `findFirst`: some budget has this user, category, start date and end date |
| Ledger.InvertedRangeCoversNothing | services/TransactionServices.js:52-53 | a budget whose start sorts after its end covers no date |
| Ledger.OneDayRange | services/TransactionServices.js:48-55 | a budget whose start equals its end covers exactly that date, for its user and category |
| Ledger.CoveredBetween | services/TransactionServices.js:52-53 | a budget covers every date between two dates it covers |
| Ledger.MissedDateOutside | services/TransactionServices.js:48-55 | a budget of the expense's user and category misses its date if and only if the date sorts strictly before the start or strictly after the end |
| Ledger.CoveredLeftAppend | services/TransactionServices.js:48-55 | the covered total of a concatenation is the sum of the covered totals |
| Ledger.CoveredLeftNonNegative | services/TransactionServices.js:48-55 | with no negative leftAmount the covered total is not negative |
| Ledger.NothingCovered | services/TransactionServices.js:57-59 | when no budget covers, the covered total and count are zero |
| Ledger.AppendKeepsKeysUnique | services/BudgetServices.js:27-49 | appending a budget whose (user, category, start, end) key is not taken keeps keys unique and takes that key |
| TransactionServices.DrawEvery | services/TransactionServices.js:61-74 | the draw keeps the number of budgets |
| TransactionServices.DrawEveryKeepsRows | services/TransactionServices.js:63-69 | the draw keeps every row and changes nothing but leftAmount |
| TransactionServices.DrawEveryOk | services/TransactionServices.js:63-74 | the draw succeeds if and only if no covering budget is short |
| TransactionServices.DrawEveryLeft | services/TransactionServices.js:63-69 | budget `i` loses `amount` exactly when it covers and no covering budget up to it is short; otherwise it keeps its leftAmount |
| TransactionServices.DrawEverySucceedsIff | services/TransactionServices.js:61-74 | an expense goes through if and only if every covering budget has at least the amount left |
| TransactionServices.DrawEveryOnSuccess | services/TransactionServices.js:61-69 | on success every covering budget has lost exactly the amount and every other budget is unchanged |
| TransactionServices.DrawEveryStopsAtFirstShort | services/TransactionServices.js:63-74 | at the first short covering budget `k` the draw fails; covering budgets before `k` have lost the amount, and `k` and every later budget are unchanged |
| TransactionServices.DrawEveryTotal | services/TransactionServices.js:61-69 | on success the covered total drops by the amount once per covering budget |
| TransactionServices.DrawBudgets | services/TransactionServices.js:61-74 | the in-place loop leaves the table and the verdict of `DrawEvery` on the old table, and changes nothing else |
| TransactionServices.CreateTransaction | services/TransactionServices.js:4-86 | checks in order: missing or falsy field (amount 0 included), bad type, expense without category name, unknown lower-cased category, no covering budget, each with the store unchanged. An income is appended with the lower-cased name and the stamp, budgets untouched. An expense draws as `DrawEvery` and is appended with its category only when the draw succeeds. A success advances the transaction id by one |
| TransactionServices.EditTransaction | services/TransactionServices.js:160-199 | amount, name and type are required; an expense needs a category name and a known lower-cased category, which becomes its category; amount, name and type are overwritten as given; budgets are untouched; an absent id is an error with the store unchanged |
| TransactionServices.DeleteTransaction | services/TransactionServices.js:201-210 | removes only the transaction with that id, budgets untouched; an absent id is an error with the store unchanged. The routes copy at routes/Transactions.js:218-227 does the same and is modelled by this member |
| TransactionRoutes.Spill | routes/Transactions.js:79-101 | the spill-over keeps the number of budgets |
| TransactionRoutes.SpillStopsAt | routes/Transactions.js:80-99 | when budget `k` is the first to absorb what is still owed, covering budgets before it are emptied, `k` loses what is owed there, later budgets are unchanged, and nothing remains owed |
| TransactionRoutes.SpillNeverStops | routes/Transactions.js:92-101 | when no budget absorbs, every covering budget is emptied and what remains owed is the amount less the covered total |
| TransactionRoutes.SpillConserves | routes/Transactions.js:79-101 | the covered total drops by exactly the part of the amount that was paid |
| TransactionRoutes.SpillRemaining | routes/Transactions.js:79-105 | with no negative leftAmount and a positive amount, nothing remains owed if the covered total reaches the amount; otherwise the shortfall remains |
| TransactionRoutes.SpillKeepsNonNegative | routes/Transactions.js:79-101 | the spill-over never drives a budget below zero |
| TransactionRoutes.SpillShortEmptiesAll | routes/Transactions.js:92-105 | with no negative leftAmount, when the covered total is below a positive amount, the expense fails with every covering budget at 0 |
| TransactionRoutes.SpillSucceedsIff | routes/Transactions.js:79-105 | with no negative leftAmount and a positive amount, the expense is paid if and only if the covered total reaches the amount; then the covered total drops by exactly the amount and no budget goes negative |
| TransactionRoutes.SpillSuccessStops | routes/Transactions.js:80-91 | when the covered total reaches a positive amount, some budget is the first to absorb what is owed, so `SpillStopsAt` describes the paid expense |
| TransactionRoutes.SpillUncovered | routes/Transactions.js:79-101 | when no budget covers the expense, the walk changes no budget and the whole amount remains owed |
| TransactionRoutes.SpillFailureEmptiesAll | routes/Transactions.js:92-105 | for every table, negative leftAmounts included: when something remains owed after the walk, every covering budget is at 0 |
| TransactionRoutes.SpillPaidStops | routes/Transactions.js:80-91 | for every table, negative leftAmounts included: when some budget covers the expense and nothing remains owed, some budget is the first to absorb what is owed there, so `SpillStopsAt` describes the paid expense |
| TransactionRoutes.SpillBudgets | routes/Transactions.js:79-101 | the in-place loop with its `break` leaves the table and the remaining amount of `Spill` on the old table, and changes nothing else |
| TransactionRoutes.CreateTransaction | routes/Transactions.js:9-116 | the same checks as the services copy, with the name and the category name taken as given; an expense spills over as `Spill` and is appended only when nothing remains owed; a success advances the transaction id by one |
| TransactionRoutes.EditTransaction | routes/Transactions.js:187-216 | amount, type and category name are required for every type; the category is looked up as given and always overwritten; the name is kept; budgets are untouched |
| BudgetServices.StoredDates | services/BudgetServices.js:12-16 | the stored start and end dates: each input date with its first and third fields exchanged |
| BudgetServices.StoredDatesReverseInput | services/BudgetServices.js:12-16 | each stored date splits into the input's fields in reverse order, and swapping it again gives the input back |
| BudgetServices.UnpaddedStartExample | services/BudgetServices.js:12-13 | `1/2/2024` is stored as `2024/2/1`, with no padding |
| BudgetServices.UnpaddedStartMissesStamps | services/BudgetServices.js:12-13 | a budget whose start month (1 to 9) was sent without its leading zero is stored starting `y/m/...`, which sorts after every stamp of months 1 to 9 of that year (services/TransactionServices.js:24-27), so it covers no expense made in them, its own month included |
| BudgetServices.CreateBudget | services/BudgetServices.js:4-55 | a missing field, an unknown category and a taken (user, category, swapped start, swapped end) key are refused with the store unchanged; otherwise one budget is appended with `leftAmount = amount` and the next id, which advances by one, and key uniqueness is kept |
| BudgetServices.EditBudget | services/BudgetServices.js:103-132 | every field is required, `leftAmount` 0 included; the budget is overwritten with the fields exactly as given, the dates unswapped and no check of leftAmount against amount |
| BudgetServices.DeleteBudget | services/BudgetServices.js:134-142 | removes only the budget with that id; an absent id is an error with the store unchanged. The routes copy at routes/Budgets.js:137-145 does the same and is modelled by this member |
| BudgetRoutes.StoredDates | routes/Budgets.js:15-19 | the stored start date is the swapped start date; the stored end date is the swapped start date swapped again |
| BudgetRoutes.StoredEndIsInputStart | routes/Budgets.js:15-19 | the stored end date is the start date exactly as sent, and the end date sent does not matter |
| BudgetRoutes.StoredEndExample | routes/Budgets.js:15-19 | for `01/02/2024`..`28/02/2024` this copy stores end `01/02/2024`, where the services copy stores `2024/02/28` |
| BudgetRoutes.CreateBudget | routes/Budgets.js:9-59 | the same checks, append and id advance as the services copy, with the end date built from the swapped start date |
| BudgetRoutes.EditBudget | routes/Budgets.js:107-135 | the checks and overwrite of the services copy, after which the answer is a server error |
| FinancialReports.InMonth | routes/FinancialReports.js:15 | the transaction's date contains `/month/` |
| FinancialReports.Signed | routes/FinancialReports.js:24-25 | an income adds its amount, every other type subtracts it |
| FinancialReports.Net | routes/FinancialReports.js:21-26 | the sum of the signed amounts, 0 for no transactions |
| FinancialReports.SelectMonth | routes/FinancialReports.js:12-18 | a transaction is selected if and only if it is stored and its date contains `/month/`, across all users; each matching row is selected as many times as it is stored, and no other row is |
| FinancialReports.NetAppend | routes/FinancialReports.js:23-26 | the net amount of a concatenation is the sum of the net amounts |
| FinancialReports.NetIsIncomeMinusDebits | routes/FinancialReports.js:23-26 | the net amount is the incomes less every other type |
| FinancialReports.NetOrderIndependent | routes/FinancialReports.js:23-26 | the net amount of a permutation is the same |
| FinancialReports.StampInMonth | routes/FinancialReports.js:15 | a transaction stamped `yyyy/mm/dd` is selected for `month` if and only if `month` is its padded month |
| FinancialReports.NetAmount | routes/FinancialReports.js:21-26 | the `forEach` fold starting at 0 computes the net amount |
| FinancialReports.GetReportForAMonth | routes/FinancialReports.js:8-34 | the report holds the selected transactions and their incomes less debits, 0 when none is selected |

## Findings

| source | as written | input that shows it | evidently intended | confidence | as-written member | corrected member |
|---|---|---|---|---|---|---|
| routes/Budgets.js:18-19 | the end date is split from the already swapped start date, so the stored end date is the start date as sent and the end date sent is ignored | start `01/02/2024`, end `28/02/2024`: stored end is `01/02/2024` | split the end date sent, as services/BudgetServices.js:15-16 does: stored end `2024/02/28` | high, not executed | BudgetRoutes.StoredEndIsInputStart | BudgetServices.StoredDatesReverseInput |
| routes/Budgets.js:131 | the reply names `updatedTransaction`, which is not defined, so a successful update is answered with a server error | any edit that passes the checks and names an existing id | answer with the updated budget, as services/BudgetServices.js:128 does | high, not executed | BudgetRoutes.EditBudget | BudgetServices.EditBudget |

## Left out

- Express routing, `req`/`res`, status codes and JSON shapes: each answer is an `Outcome`, and 400 and 500 answers are told apart only by their `Failure` kind.
- The `authenticateToken` middleware, `server.js` and routes/Categories.js: wiring, and the create, read, edit (`PUT /editCategory/:id`, a rename) and delete of categories. The category table is a fixed `map` from name to id, so the model does not capture a category being added, renamed or deleted between two requests.
- The read-only listing endpoints (`getTransactionsForUser`, `getExpenses`, `getExpenseTransactionsForUser`, `getIncome`, `getIncomeTransactionsForUser`, `getBudgetsForUser`, `getBudgetsForCategory`): plain filters with no logic.
- `trackBudget`: it filters on a `categoryName` field that budgets do not have.
- `new Date()`: the current day, month and year are a `Today` parameter.
- `console.log` calls.
- Floating point: amounts are `int`, since the column type is not part of this model.
- `parseInt` on path parameters: ids arrive as `int`, so a non-numeric id (NaN) is not modelled.
- The `!transactions` test at routes/FinancialReports.js:20 is never true, because `findMany` returns an array. It is not modelled.
- The store's string collation: `<=` on dates is by character code (`Text.LexLe`).
- Lower-casing covers ASCII letters only (`Text.ToLower`).
- `name.toLowerCase()` or `split` throwing on a non-string field: fields are typed `string`.
- Dates that do not split into three fields are modelled as JavaScript destructures them, not excluded by a precondition: a missing field becomes `undefined` and extra fields are dropped (`Dates.Field`).
- Concurrency, races between the duplicate check and the append, and failures of the store between two updates: the model is sequential and every store call succeeds, except that an update or delete of an absent id fails (`RecordNotFound`).
- Prisma's `findUnique`/`findFirst` on a category name: both are a lookup in the category map.
- `findMany` without `orderBy` returns budgets in store order; the draw loops walk the table in that order and act on the covering budgets. Each update targets its budget by its unique id, which the loops express as an update at that position.
