# banking-csv-cli, modelled in Dafny

banking-csv-cli reads bank statements and shows them as a collapsible tree of
totals. The tree has four levels: year, month, beneficiary and transaction.
This project models the core of that tool and proves properties about it.

- **The grouping window** (`pkg/transactions/window.go`, module
  `Transactions`, file `window.dfy`). A `Window` holds year `Tab`s. A tab
  holds month `Category`s, and a category holds beneficiary `Summary`s. Each
  level keeps an ordered slice and a map by title, and the model keeps both.
  `NewWindow` files each transaction in turn. It is proved to build exactly
  the grouping of its input:
  - one tab per year, one category per month and one summary per
    beneficiary, each in first-seen order;
  - each summary holds the transactions of its path, in input order;
  - every transaction sits in exactly one summary.

  The `GetSum` and `GetRows` methods refresh cached sums as they go. They are
  proved to return the row projection of the tree, with every sum equal to
  the total of the transactions below it.
- **What the grouping means, over values** (`aggregation.dfy`, `order.dfy`).
  A transaction's path is its valuta year, its month name and its
  beneficiary. `Select(ts, q)` is the transactions under a path prefix, and
  `FirstSeen` is a key list without duplicates, in order of first
  appearance. The month totals are proved to partition the transactions.
- **The table view** (`pkg/table/table.go`, module `Tables`, file
  `table.dfy`). `buildTable` flattens the tree's visible nodes, in
  pre-order, into rows. It keeps a parallel `ref` slice, and `action` on
  row `i` is proved to apply the outcome of that action on `ref[i]`, the node
  shown there. Three things are proved about the
  layout:
  - row `i` is the row of entry `i`, whose node is `ref[i]`;
  - every entry is visible, and the top level lists the visible years in
    order;
  - every deeper entry comes after its parent (pre-order).
- **GroupTransactions**, in `pkg/cmd/banking.go` and again in `main.go`
  (modules `Cmd`, `Cli` and `Grouping`). Each beneficiary maps to the sum of
  its absolute amounts. With exact amounts, the result does not depend on
  the order of the input.
- **parseCommandLine** (`main.go`): exactly one of `-f` and `--file` names
  the input file.
- **validateMigrateOptions** (`pkg/cmd/db.go`): a migrations path must be a
  directory of `.up.sql` and `.down.sql` files only. The first offending
  entry names the error.
- **NewDatabase** (`pkg/sql/database.go`). It completes the caller's options
  in place, with a default file, the SQLite query string and defaults for
  zero limits, and copies them into a new database value.

Amounts are whole cents (`int`) rather than `float64`, and `FormatCents`
renders them the way `%.2f` and `strconv.FormatFloat(…, 'f', 2, 64)` do.

The calls the core makes to the outside world are not modelled. Their
outcomes become parameters:

| call | modelled as |
|---|---|
| `os.Stat` | a `Result` parameter |
| `os.ReadDir` | a `Result` parameter |
| `flag.Parse` | the two flag values |
| `Sum.Action` | an outcome table: the `Effect` of each action on each node |

`log.Fatal` becomes an `Err` result.

## Model

| member | source | states |
|---|---|---|
| Transactions.CreateRow | pkg/transactions/window.go:31-33 | a row is the four given cells in the order date, beneficiary, description, sum |
| Transactions.Summary.constructor | pkg/transactions/window.go:204-209 | a new summary has the given title, no transactions, details hidden and sum zero |
| Transactions.Summary.AddTransaction | pkg/transactions/window.go:211-213 | the transaction is appended to the summary's list and nothing else changes |
| Transactions.Summary.GetSum | pkg/transactions/window.go:215-223 | the result and the cached sum are both the total of the summary's transactions |
| Transactions.Summary.OnClick | pkg/transactions/window.go:225-227 | the details flag is negated |
| Transactions.OnClickTwice | pkg/transactions/window.go:225-227 | clicking twice restores the flag and the summary's rows |
| Transactions.Summary.GetRows | pkg/transactions/window.go:229-252 | the rows are the summary's projection SummaryRows and the cached sum is refreshed to the total |
| Transactions.SummaryRows | pkg/transactions/window.go:229-252 | one header row with the title and the total, then, only when details are shown, one row per transaction in order |
| Transactions.TransactionRows | pkg/transactions/window.go:243-250 | one detail row per transaction, in order, with its day and month, purpose and amount |
| Transactions.Category.constructor | pkg/transactions/window.go:149-155 | a new category has the given title, no summaries and an empty index |
| Transactions.Category.HasSummary | pkg/transactions/window.go:157-160 | for an indexed category, true exactly when a summary of that title is in the ordered slice |
| Transactions.Category.AddSummary | pkg/transactions/window.go:162-165 | the summary is appended and indexed under its title; the index stays consistent exactly when the title was new |
| Transactions.Category.GetSummary | pkg/transactions/window.go:167-169 | nil exactly for a title not in the index; otherwise a summary of the slice with that title |
| Transactions.SummaryLookup | pkg/transactions/window.go:157-169 | an indexed category's map holds exactly the slice's titles, each mapped to the summary of that title |
| Transactions.SummaryIndexKeys | pkg/transactions/window.go:157-169 | the index built from a slice has the slice's titles as keys and, without duplicates, maps each to its summary |
| Transactions.Category.GetSum | pkg/transactions/window.go:171-179 | the result and the cached sum are the sum of the summaries' totals, and every summary's cached sum is refreshed |
| Transactions.CategoryTotal | pkg/transactions/window.go:171-179 | in a built window, a month's computed sum is the total of all the transactions of that year and month |
| Transactions.Category.GetRows | pkg/transactions/window.go:181-194 | the rows are CategoryRows and all the cached sums below are refreshed |
| Transactions.CategoryRows | pkg/transactions/window.go:181-194 | a header row with "- " before the month and its total, then each summary's rows; the count is 1 plus the summaries plus the shown details |
| Transactions.GetSummaryListRows | pkg/transactions/window.go:189-191 | the loop's rows are the summaries' rows in slice order, and each summary's sum is refreshed |
| Transactions.SummaryListRows | pkg/transactions/window.go:189-191 | one row per summary plus one per shown transaction |
| Transactions.Tab.constructor | pkg/transactions/window.go:105-111 | a new tab has the given title and no categories |
| Transactions.Tab.HasCategory | pkg/transactions/window.go:113-120 | the scan over the map's values finds a category of that title; when indexed, exactly when the title is a key |
| Transactions.Tab.IndexedValues | pkg/transactions/window.go:113-120 | for an indexed tab, scanning the values by title and looking up the key agree |
| Transactions.Tab.AddCategory | pkg/transactions/window.go:122-125 | the category is appended and indexed; the index stays consistent exactly when the title was new; the other categories are untouched |
| Transactions.Tab.GetCategory | pkg/transactions/window.go:127-129 | nil exactly for a title not in the index; otherwise a category of the slice with that title |
| Transactions.CategoryLookup | pkg/transactions/window.go:113-129 | an indexed tab's map holds exactly the slice's titles, each mapped to the category of that title |
| Transactions.CategoryIndexKeys | pkg/transactions/window.go:113-129 | the index built from a slice has the slice's titles as keys and, without duplicates, maps each to its category |
| Transactions.Tab.GetRows | pkg/transactions/window.go:131-140 | the rows are a "[ year ]" header then each category's rows, unchanged by the call; every category and summary sum is refreshed |
| Transactions.GetCategoryListRows | pkg/transactions/window.go:136-138 | the loop's rows are the categories' rows as they were on entry, and every sum below is refreshed |
| Transactions.CategoryRowsKept | pkg/transactions/window.go:181-194 | a category's rows depend only on its summaries' titles, transactions and details flags, not on the cached sums |
| Transactions.TabRowsKept | pkg/transactions/window.go:131-140 | a tab's rows depend only on its categories and summaries, not on the cached sums |
| Transactions.Window.constructor | pkg/transactions/window.go:44-50 | the window starts titled "Transactions" over the given list, with no tabs |
| Transactions.Window.HasTab | pkg/transactions/window.go:75-78 | for an indexed window, true exactly when a tab of that title is in the ordered slice |
| Transactions.Window.AddTab | pkg/transactions/window.go:80-83 | the tab is appended and indexed; the index stays consistent exactly when the title was new; the other tabs are untouched |
| Transactions.Window.GetTab | pkg/transactions/window.go:85-87 | nil exactly for a title not in the index; otherwise a tab of the slice with that title |
| Transactions.TabLookup | pkg/transactions/window.go:75-87 | an indexed window's map holds exactly the slice's titles, each mapped to the tab of that title |
| Transactions.TabIndexKeys | pkg/transactions/window.go:75-87 | the index built from a slice has the slice's titles as keys and, without duplicates, maps each to its tab |
| Transactions.Window.GetRows | pkg/transactions/window.go:89-97 | the rows are the tabs' rows in slice order, the same before and after the sums are refreshed |
| Transactions.GetTabListRows | pkg/transactions/window.go:92-94 | the loop's rows are the tabs' rows as they were on entry |
| Transactions.NewWindow | pkg/transactions/window.go:43-73 | the new window is titled "Transactions", keeps the list, stays indexed at every level and is the grouping of the whole list |
| Transactions.FileTransaction | pkg/transactions/window.go:52-70 | one pass of the loop turns the grouping of the prefix into the grouping of the prefix plus t; only new objects join the tree |
| Transactions.FindTab | pkg/transactions/window.go:53-57 | the year tab of t exists afterwards, the tab titles are the first-seen years, and a new tab is appended only for an unseen year |
| Transactions.FindCategory | pkg/transactions/window.go:59-63 | the month category of t exists afterwards, the category titles are the first-seen months of the year, and a new one is appended only for an unseen month |
| Transactions.FindSummary | pkg/transactions/window.go:65-68 | the beneficiary summary of t exists afterwards, the summary titles are the first-seen beneficiaries of the month, and a new one is appended only for an unseen beneficiary |
| Transactions.SummaryPlace | pkg/transactions/window.go:43-73 | in a built window, every summary is reachable through the maps by its year, month and title, and holds the selection of its path |
| Transactions.PathFiled | pkg/transactions/window.go:43-73 | in a built window, the tab, category and summary at a transaction's path all exist |
| Transactions.FiledInOneSummary | pkg/transactions/window.go:43-73 | in a built window, the summary at a transaction's path holds every copy of it, and no other summary holds it |
| Transactions.SummariesTotalOver | pkg/transactions/window.go:171-179 | summaries holding the selections of their titles sum to the sum of those selections' totals |
| Aggregation.Path | pkg/transactions/window.go:53-68 | a transaction's path is its year as decimal text, its month name and its beneficiary |
| Aggregation.MatchesExtend | pkg/transactions/window.go:53-68 | a transaction matches a longer prefix exactly when it matches the shorter one and its next key is the added one |
| Aggregation.MatchesPath | pkg/transactions/window.go:53-68 | a transaction matches a full path exactly when that path is its own |
| Aggregation.KeysAt | pkg/transactions/window.go:53-68 | the key list at a level is each transaction's key at that level, in order |
| Aggregation.KeyOccurs | pkg/transactions/window.go:53-68 | the key of each transaction of a list occurs in the list's keys |
| Aggregation.SelectAppend | pkg/transactions/window.go:52-70 | a transaction added at the end is selected by a prefix exactly when it matches it |
| Aggregation.SelectUnseen | pkg/transactions/window.go:54-67 | a key not yet seen under a prefix selects nothing, so a newly added child starts empty |
| Aggregation.FirstSeenStep | pkg/transactions/window.go:54-67 | a transaction adds its key to a level's first-seen list exactly when the key is unseen under its prefix |
| Aggregation.SelectCount | pkg/transactions/window.go:52-70 | a prefix selects every copy of a matching transaction and none of any other |
| Aggregation.FiledOnce | pkg/transactions/window.go:52-70 | a transaction's own path selects every copy of it, and any other full path selects none |
| Aggregation.TotalAppend | pkg/transactions/window.go:215-223 | the running total grows by the amount of each transaction added |
| Aggregation.SumOverOther | pkg/transactions/window.go:171-179 | a transaction outside a prefix changes no sum of totals under it |
| Aggregation.SumOverOwn | pkg/transactions/window.go:171-179 | a transaction under a prefix adds its amount to the sum of totals over distinct keys when its key is among them |
| Aggregation.Partition | pkg/transactions/window.go:171-179 | the totals of the children of a prefix, over its first-seen keys, add up to the total of the prefix |
| Order.FirstSeen | pkg/transactions/window.go:54-67 | the first-seen list has no duplicates and holds exactly the keys that occur |
| Order.FirstSeenAppend | pkg/transactions/window.go:54-67 | a key is appended to the first-seen list exactly when it was not seen before |
| Order.FirstSeenInOrder | pkg/transactions/window.go:54-67 | the first-seen list is ordered by each key's first occurrence |
| Order.FirstIndex | pkg/transactions/window.go:54-67 | the index of a key's first occurrence: it holds the key, and no earlier position does |
| Order.FirstIndexAppend | pkg/transactions/window.go:54-67 | appending a key leaves earlier first occurrences in place, and a new key's first occurrence is the end |
| Order.NoDuplicatesAppend | pkg/transactions/window.go:54-67 | a list with a key appended has no duplicates exactly when the list had none and lacked the key |
| Tables.Sum.Action | pkg/table/table.go:61-63 | the outcome of this action on this node is applied: the nodes it names get their new visibility and its error is returned |
| Tables.Table.constructor | pkg/table/table.go:27-34 | a new table keeps the model and is built at once, laid out from the current visibility |
| Tables.Table.Action | pkg/table/table.go:58-68 | the outcome of the given action on ref[row], the node of the row, is applied and its error returned; on error the table is left as it was, otherwise it is rebuilt for the new visibility |
| Tables.NewRow | pkg/table/table.go:70-77 | a row is the three text cells then the sum with two decimals |
| Tables.Table.Reset | pkg/table/table.go:79-82 | rows and refs are both empty |
| Tables.Table.BuildTable | pkg/table/table.go:84-124 | rows and refs are laid out from the model's visible nodes in pre-order, row i being the row of the node ref[i] |
| Tables.Table.AppendYear | pkg/table/table.go:87-121 | one year's visible subtree is appended to the layout |
| Tables.Table.AppendMonth | pkg/table/table.go:95-119 | one month's visible subtree is appended to the layout |
| Tables.Table.AppendBeneficiary | pkg/table/table.go:103-118 | one beneficiary's visible subtree is appended to the layout |
| Tables.Table.AppendTransaction | pkg/table/table.go:111-117 | a transaction's row is appended when it is visible |
| Tables.Entries | pkg/table/table.go:84-124 | every entry of the layout is at its level or deeper and at most at the transaction level |
| Tables.EntriesStep | pkg/table/table.go:87-121 | the layout of one more year is the previous layout plus that year's subtree |
| Tables.ReachCovers | pkg/table/table.go:84-124 | a visibility snapshot of all reachable nodes covers the whole tree |
| Tables.Siblings | pkg/table/table.go:87-121 | the layout's top-level entries are exactly the visible nodes of the level, in order |
| Tables.TreeTop | pkg/table/table.go:87-121 | a subtree's layout starts at its root when the root is visible and is empty otherwise |
| Tables.Emitted | pkg/table/table.go:84-124 | only visible nodes get rows, and each top-level row's node is one of the level's nodes |
| Tables.TreeEmitted | pkg/table/table.go:87-121 | within a subtree only visible nodes get rows, and the only top-level row is the root's |
| Tables.Preorder | pkg/table/table.go:84-124 | every deeper row comes after a row of its parent, with no sibling of the parent in between |
| Tables.TreePreorder | pkg/table/table.go:87-121 | a subtree's rows are in pre-order under its root |
| Tables.LaidUnique | pkg/table/table.go:84-124 | the layout fixes rows and refs, so rebuilding from an unchanged visibility gives the same table |
| Cmd.GroupTransactions | pkg/cmd/banking.go:153-163 | the map holds exactly the beneficiaries that occur, each with the sum of its absolute amounts |
| Grouping.GroupsMeaning | pkg/cmd/banking.go:153-163 | the grouping's keys are the beneficiaries that occur, and each maps to its non-negative total of absolute amounts |
| Grouping.GroupsOthers | pkg/cmd/banking.go:155-161 | one more transaction changes only its own beneficiary's entry |
| Grouping.AbsTotalAbsent | pkg/cmd/banking.go:153-163 | a beneficiary that does not occur totals zero |
| Grouping.AbsTotalConcat | pkg/cmd/banking.go:153-163 | a beneficiary's total over two lists joined is the sum of its totals over each |
| Grouping.AbsTotalPermutation | pkg/cmd/banking.go:153-163 | a beneficiary's total does not depend on the order of the transactions |
| Grouping.GroupsPermutation | pkg/cmd/banking.go:153-163 | reordering the payments does not change the grouping |
| Cmd.GroupTransactionsOrder | pkg/cmd/banking.go:153-163 | reordering the transactions does not change the grouping |
| Cmd.PaymentsConcat | pkg/cmd/banking.go:155 | the fields read from two lists joined are those of each, joined |
| Cmd.PaymentsPermutation | pkg/cmd/banking.go:155 | reordering the transactions reorders the fields read from them alike |
| Cli.ParseCommandLine | main.go:89-110 | both flags set or neither set is an error with the source's message; otherwise the file is the one flag given |
| Cli.EitherFlag | main.go:101-108 | a file name given with either flag alone is accepted as the file |
| Cli.GroupTransactions | main.go:184-194 | the map holds exactly the beneficiaries that occur, each with the sum of its absolute amounts |
| Cmd.CheckListing | pkg/cmd/db.go:60-71 | no error exactly when every entry is a file with a migration suffix; otherwise the error of the first entry that is not |
| Cmd.ValidateMigrateOptions | pkg/cmd/db.go:43-74 | a stat error, a path that is not a directory and a listing error each give their own message, in that order; otherwise the listing check decides |
| Cmd.NotDirectoryFirst | pkg/cmd/db.go:49-51 | a path that is not a directory is rejected whatever its listing |
| Cmd.ValidListing | pkg/cmd/db.go:60-73 | a directory is valid exactly when all its entries are files with a .up.sql or .down.sql suffix |
| Cmd.SubdirectoryRejected | pkg/cmd/db.go:61-63 | a subdirectory is reported as one even when its name carries a migration suffix |
| Cmd.FirstOffender | pkg/cmd/db.go:60-71 | the error reported is that of the first entry that is not acceptable |
| Sql.NewDatabase | pkg/sql/database.go:34-71 | the caller's options, or zero options for nil, are completed in place, and the new database holds the completed values |
| Sql.CompletedURL | pkg/sql/database.go:43-46 | the URL ends with the query string, after the given URL or after ./transactions.db when none was given |
| Sql.CompletedLimits | pkg/sql/database.go:48-62 | no completed limit is zero, and every limit that was not zero is kept |
| Sql.CompletedTwice | pkg/sql/database.go:43-46 | completing twice changes only the URL, which then carries the query string twice |
| Sql.Database.constructor | pkg/sql/database.go:64-70 | the database holds exactly the values it is given |

## Left out

- CSV reading (`pkg/cmd/csv.go`), the SQL store and the migrations are not part of this model. They are only the sources of the transaction list and of the database options.
- `model.go`, `bubbles.go`, `mapGroupsToModel` and the rest of the terminal UI are not part of this model. This includes the lipgloss styles and the `table.New` call in `NewTable`, which only render rows the model already produces.
- `CreateColumns` (window.go:22-29) is not modelled: it returns constant column titles and widths for the display widget.
- `Window.transactions` is kept but never read, as in the source.
- Amounts are exact integer cents, not `float64`. Rounding in sums and in `%.2f` is not modelled, and so neither is the order dependence of floating-point addition.
- Go's fixed-width `int` and the nanosecond `time.Duration` are unbounded integers here.
- Transactions carry only the fields the core reads: valuta date, purpose, beneficiary and amount. The valuta date is a year, month and day. `time.Time` and its location are not modelled.
- `transactions.Sum`, the node type behind `pkg/table`, is not part of this model. Its title, total and children are fixed per node. `Sum.Action` is given as an outcome table: for each node and action, an `Effect` holding the new visibility of some nodes and an optional error. A pair the table does not list changes nothing and succeeds. What the real `Sum.Action` computes, for example a toggle that depends on the current visibility, is whatever the caller's table says.
- Tables.Table.Action: requires a row within `ref`. The Go code indexes `t.ref[row]` unchecked and panics on a stale or bad row. An explicit index check would be safer; the model follows the code.
- Flag definition and parsing are not modelled. `parseCommandLine` receives the values of `-f` and `--file`, and `log.Fatal`, which ends the process, is an `Err`.
- main.go's transaction struct is reduced to beneficiary and amount, the two fields its `GroupTransactions` reads.
- `os.Stat` and `os.ReadDir` are not called. Their outcomes are parameters, and the stat error is reduced to its message.
- Sql.NewDatabase: the `Database` value holds only the five settings. No connection is opened.
- Transactions.Window.GetRows: states the rows only. It does not restate at window level that each `Tab.GetRows` refreshes the cached sums below it; `Transactions.Tab.GetRows` states that for each tab.
- Transactions.GetTabListRows: states the rows only, for the same reason as `Transactions.Window.GetRows`.
