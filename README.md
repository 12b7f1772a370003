# Transactions ledger: creating and importing transactions

A Dafny model of the two services of a small finance API that records income
and outcome transactions against named categories.

- **CreateTransactionService** (`create_transaction.dfy`) saves one transaction.
  First it checks an outcome against the balance total. An outcome whose value
  is strictly greater than the total is refused with an `InsufficientBalance`
  error that carries the total, and nothing is written. Then the service looks
  up the category by its exact title and creates it if it is missing. Last, it
  saves the transaction and returns it.
- **ImportTransactionsService** (`import_transactions.dfy`) saves a batch of
  rows decoded from a CSV file. It skips a row unless its title, type and value
  are all truthy in JavaScript's sense. It pushes each kept row's category
  string onto a candidate list. It looks up the stored categories whose title
  is among the candidates. It computes `categoriesToAdd`: the candidates without
  a stored title, each kept at its first occurrence (`indexOf(x) === index`).
  It saves those categories. It resolves every row's category with `find` over
  the new categories followed by the existing ones. Finally it saves all the
  transactions. Import makes no balance check.
- **Ledger** (`ledger.dfy`) stands in for the two repositories. Its `Store`
  class holds the category table, the transaction table and a counter that
  hands out fresh ids. `Store.Valid()` says three things: ids are below the
  counter, no id occurs twice, and every transaction names a stored category.
  The `Add…` methods model the repository's `create` followed by `save`.

Main results:
- The single create succeeds exactly when the transaction is not an outcome
  above the total. Failure leaves the store unchanged.
- Find-or-create is idempotent. Two creates with the same category name leave
  exactly one category with that title.
- Import keeps exactly the complete rows, in file order.
- `categoriesToAdd` holds exactly the candidate titles not already stored. It
  has no duplicates and keeps first-seen order. Its size is the number of
  distinct new titles.
- Category resolution never comes back empty. Every saved transaction copies
  its row and points at a category with the row's title.
- Unique category titles stay unique through both services.

## Model

| member | source | states |
|---|---|---|
| Ledger.FindByTitle | src/services/ImportTransactionsService.ts:87-89 | the result is absent exactly when no category has title `t`; otherwise it is a stored category with that title, and no earlier one has it (first match, as `find` and `findOne` return) |
| Ledger.Store.AddCategory | src/services/CreateTransactionService.ts:39-43 | saving one category appends it with the fresh id, advances the counter, leaves transactions alone and keeps the store valid |
| Ledger.Store.AddCategories | src/services/ImportTransactionsService.ts:69-77 | the bulk save appends one category per title, in order, with consecutive fresh ids, and keeps the store valid |
| Ledger.Store.AddTransaction | src/services/CreateTransactionService.ts:48-55 | saving one transaction appends it with the fresh id and the given fields, leaves categories alone and keeps the store valid |
| Ledger.Store.AddTransactions | src/services/ImportTransactionsService.ts:81-94 | the bulk save appends one transaction per draft, in order, with consecutive fresh ids, and keeps the store valid |
| CreateTransactionService.FindOrCreate | src/services/CreateTransactionService.ts:31-46 | afterwards a category with the chosen id and title `name` exists; if the title was already stored nothing is added; otherwise exactly `Category(nextId, name)` is appended and its id is used |
| CreateTransactionService.FindOrCreateCount | src/services/CreateTransactionService.ts:34-43 | the number of categories titled `name` is unchanged when one existed, and becomes one when none existed |
| CreateTransactionService.FindOrCreateIdempotent | src/services/CreateTransactionService.ts:34-46 | a second find-or-create with the same name adds nothing and picks the id the first one picked |
| CreateTransactionService.FindOrCreateKeepsUnique | src/services/CreateTransactionService.ts:34-46 | if category titles were unique before, they are unique afterwards, and exactly one category titled `name` exists, whether it was found or created |
| CreateTransactionService.TwoCreatesLeaveOne | src/services/CreateTransactionService.ts:34-46 | starting from at most one category titled `name`, two find-or-creates with that name leave exactly one |
| CreateTransactionService.Execute | src/services/CreateTransactionService.ts:15-58 | the call fails exactly for an outcome whose value is greater than the total; the error carries the total and the store is unchanged; on success the categories are those of find-or-create, and exactly one transaction with the given fields and the resolved category id is appended and returned |
| ImportTransactionsService.CollectRows | src/services/ImportTransactionsService.ts:42-51 | the buffered transactions are the kept rows; the candidate list has one entry per kept row, in the same order, holding that row's category string |
| ImportTransactionsService.KeptPositionsSound | src/services/ImportTransactionsService.ts:43-50 | every kept row is a complete row of the file, buffered with its own fields, and kept rows appear in increasing file position |
| ImportTransactionsService.KeptPositionsComplete | src/services/ImportTransactionsService.ts:43-50 | every complete row of the file is kept |
| ImportTransactionsService.FalsyCellsDropRow | src/services/ImportTransactionsService.ts:43 | a row with an empty title or a zero value is not kept |
| ImportTransactionsService.ExistingCategories | src/services/ImportTransactionsService.ts:55-59 | a category is returned exactly when it is stored and its title is among the candidates |
| ImportTransactionsService.ExistingTitlesAreStoredTitles | src/services/ImportTransactionsService.ts:55-63 | for a candidate title, being among the looked-up titles is the same as being a stored title |
| ImportTransactionsService.NotAmong | src/services/ImportTransactionsService.ts:65-66 | a value is kept exactly when it is in the input and not among the excluded titles |
| ImportTransactionsService.IndexOf | src/services/ImportTransactionsService.ts:67 | the result is -1 exactly when the value is absent; otherwise the value sits at that position and not before it |
| ImportTransactionsService.FirstOccurrencesMembers | src/services/ImportTransactionsService.ts:67 | a value survives the `indexOf(x) === index` filter over the first `n` entries exactly when its first occurrence lies among them |
| ImportTransactionsService.FirstOccurrencesOrdered | src/services/ImportTransactionsService.ts:67 | the surviving values appear in the order of their first occurrence, so none appears twice |
| ImportTransactionsService.NotAmongKeepsFirstSeenOrder | src/services/ImportTransactionsService.ts:65-67 | removing excluded titles does not change which of two kept values is seen first |
| ImportTransactionsService.CategoriesToAddSpec | src/services/ImportTransactionsService.ts:65-67 | `categoriesToAdd` holds exactly the candidates not among the existing titles; it has no duplicates, is in first-seen order of the candidates, and its length is the number of distinct such candidates |
| ImportTransactionsService.AddedTitles | src/services/ImportTransactionsService.ts:55-67 | the added titles are exactly the candidate titles not stored before, each once, and as many as there are distinct such titles |
| ImportTransactionsService.AppendNewTitlesKeepsUnique | src/services/ImportTransactionsService.ts:65-77 | appending distinct titles that are not stored keeps category titles unique |
| ImportTransactionsService.AllCategoriesResolve | src/services/ImportTransactionsService.ts:79-92 | every kept row's category string is a title of the new categories followed by the existing ones, so `find` never comes back empty |
| ImportTransactionsService.ImportCategories | src/services/ImportTransactionsService.ts:55-92 | on values: every appended category has a candidate title that was not stored; as many are appended as there are distinct such titles; unique titles stay unique; the new categories followed by the existing ones are all stored and resolve every kept row |
| ImportTransactionsService.SaveMissingCategories | src/services/ImportTransactionsService.ts:55-79 | the new category table is the old one followed by the `categoriesToAdd` titles, in first-seen order, numbered with consecutive fresh ids; the counter advances by their number; the returned list is those new categories followed by the looked-up existing ones; transactions are untouched and the store stays valid; that list resolves every kept row, holds only stored categories, each added title is a new candidate, as many are added as there are distinct new titles, and unique titles stay unique |
| ImportTransactionsService.Drafts | src/services/ImportTransactionsService.ts:81-92 | one draft per kept row, in order, copying title, value and type, and pointing at a category whose title is the row's category string |
| ImportTransactionsService.Execute | src/services/ImportTransactionsService.ts:19-98 | no failure path and no balance check; the new category table is the old one followed by the `categoriesToAdd` titles in first-seen order with consecutive fresh ids; then one transaction per kept row is appended and returned, in file order, with the next consecutive ids; each copies its row and names a stored category with the row's title; existing transactions and categories are kept; each added category has a new candidate title; the number added equals the number of distinct new titles; unique titles stay unique |

## Left out

- File handling is left out: the path join, `fs.promises.stat`, `createReadStream` and the final `unlink` (src/services/ImportTransactionsService.ts:23-24, 33-34, 96) are I/O. The "Cant find the file" check (line 29) tests a Promise that is never awaited. A Promise object is always truthy, so that error can never be thrown, and the model has no file-not-found path.
- CSV decoding is left out (src/services/ImportTransactionsService.ts:33-53). The input is the sequence of decoded rows, in file order, and the `end` event is the end of that sequence. Cells are modelled as absent or present. A present type is `income` or `outcome`, a value is an integer, and a category is a string. The decoder's type casting is not modelled: a title such as "0" cast to a number, another type string, or a non-numeric value. Categories are always strings here. With casting switched on, the decoder turns a numeric-looking category such as "2020" into the number 2020. The `includes` test at src/services/ImportTransactionsService.ts:61-66 then misses the stored title "2020", so the code would create that category again on every import. "Unique category titles stay unique" therefore holds only for string categories, as the model assumes.
- TypeORM is replaced by the in-memory `Store`. Ids come from one counter, because the store's real id generation is not visible. The row order of `find` and `findOne` is taken to be insertion order. The `Add…` methods ask that a saved transaction's category id exists; this stands for the database's foreign key, and both services meet it.
- The balance total is an input of `CreateTransactionService.Execute`. The repository method that computes it is not part of this model.
- Asynchronous ordering is not modelled, and neither are races between concurrent calls. The error's message text is not modelled; the error carries the total.
- Money values are integers (for instance cents), not floating-point numbers.
- CreateTransactionService validates none of its input: an empty title, a negative value or an empty category name passes through, in the code and in the model.
- ImportTransactionsService drops a row whose title is empty or whose value is zero (src/services/ImportTransactionsService.ts:43), as the model does. A negative value or an empty category string still passes through, in the code and in the model.
- The model follows the code on two points where a reader might expect otherwise. `categoriesToAdd` keeps the candidates' first-seen order. With string categories, resolution can never fail, so there is no category-resolution error.
